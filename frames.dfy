/**
 * What the sample records, submits and calls, written as functions of the frame
 * count: the per-frame command list, the upload command list, the queue history
 * of a run, the values the fences are signalled with, and the order of the
 * CPU-side calls. The class in module Sample is proved to produce exactly these;
 * the lemmas here state what they guarantee.
 */
module Frames {
  import opened Gpu
  import opened ResourceStates
  import Layout

  /** QUEUE_SLOT_COUNT: the number of frames the ring can hold. */
  const QUEUE_SLOT_COUNT: nat := 3

  /** Render's first block: bind the back buffer's view, viewport and scissor. */
  function RenderSetup(slot: nat): seq<Command>
  {
    [SetRenderTargets(BackBuffer(slot)), SetViewports, SetScissorRects]
  }

  /** Render's block between the two barriers: clear, bind state and resources, draw. */
  function RenderBody(slot: nat): seq<Command>
  {
    [ ClearRenderTarget(BackBuffer(slot)),
      SetPipelineState,
      SetRootSignature,
      SetDescriptorHeaps,
      SetRootConstantBufferView(1, ConstantBuffer(slot)),
      SetRootDescriptorTable(0),
      SetTriangleListTopology,
      SetVertexBuffer(VertexBuffer, Layout.VERTICES_SIZE, Layout.VERTEX_SIZE),
      SetIndexBuffer(IndexBuffer, Layout.INDICES_SIZE),
      DrawIndexed(Layout.DRAW_INDEX_COUNT, 1, 0, 0, 0) ]
  }

  /** The commands Render records into the list of `slot`, whose back buffer is buffer `slot`. */
  function RenderCommands(slot: nat): seq<Command>
  {
    RenderSetup(slot)
    + [Barrier(BackBuffer(slot), StatePresent, StateRenderTarget)]
    + RenderBody(slot)
    + [Barrier(BackBuffer(slot), StateRenderTarget, StatePresent)]
  }

  /** Positions in RenderCommands of the clear, of the draw and of the closing barrier. */
  const CLEAR_AT: nat := 4
  const DRAW_AT: nat := 13
  const BACK_TO_PRESENT_AT: nat := 14

  /** The commands CreateMeshBuffers records into the init list. */
  function MeshUploadCommands(): seq<Command>
  {
    [ CopyBufferRegion(VertexBuffer, 0, UploadBuffer, Layout.VERTEX_REGION.offset, Layout.VERTEX_REGION.size),
      CopyBufferRegion(IndexBuffer, 0, UploadBuffer, Layout.INDEX_REGION.offset, Layout.INDEX_REGION.size),
      Barrier(VertexBuffer, StateCopyDest, StateVertexAndConstantBuffer),
      Barrier(IndexBuffer, StateCopyDest, StateIndexBuffer) ]
  }

  /** The commands CreateTexture records into the init list (UpdateSubresources, then a barrier). */
  function TextureUploadCommands(image: Layout.Image): seq<Command>
  {
    [ CopyTextureFromBuffer(Texture, UploadImage, Layout.RowPitch(image.width),
                            Layout.SlicePitch(image.width, image.height)),
      Barrier(Texture, StateCopyDest, StatePixelShaderResource) ]
  }

  function UploadCommands(image: Layout.Image): seq<Command>
  {
    MeshUploadCommands() + TextureUploadCommands(image)
  }

  /** What Initialize hands to the queue: the upload list, then the upload fence signal to 1. */
  function InitWork(image: Layout.Image): seq<Work>
  {
    [Execute(InitList, UploadCommands(image)), Work.Signal(UploadFence, 1)]
  }

  /**
   * What frame `j` hands to the queue: Render submits the list of slot j % 3, then
   * Present signals the fence of the NEXT slot with the frame's fence value j.
   */
  function FrameWork(j: nat): seq<Work>
  {
    [Execute(FrameList(j % QUEUE_SLOT_COUNT), RenderCommands(j % QUEUE_SLOT_COUNT))]
    + [Work.Signal(FrameFence((j + 1) % QUEUE_SLOT_COUNT), j)]
  }

  /** The queue history of the first `n` frames. */
  function FrameHistory(n: nat): (h: seq<Work>)
    ensures |h| == 2 * n
  {
    if n == 0 then [] else FrameHistory(n - 1) + FrameWork(n - 1)
  }

  /** The queue history of a run of `n` frames. */
  function RunHistory(image: Layout.Image, n: nat): seq<Work>
  {
    InitWork(image) + FrameHistory(n)
  }

  /** Item k of the frame history is item k mod 2 of frame k / 2. */
  lemma {:induction false} FrameHistoryAt(n: nat, k: nat)
    requires k < 2 * n
    ensures FrameHistory(n)[k] == FrameWork(k / 2)[k % 2]
  {
    if k < 2 * (n - 1) {
      FrameHistoryAt(n - 1, k);
    }
  }

  /** Frame n adds its execution and then its signal to the history. */
  lemma RunHistoryStep(image: Layout.Image, n: nat)
    ensures RunHistory(image, n + 1) == RunHistory(image, n) + FrameWork(n)
    ensures RunHistory(image, n + 1)
            == RunHistory(image, n) + [Execute(FrameList(n % QUEUE_SLOT_COUNT), RenderCommands(n % QUEUE_SLOT_COUNT))]
               + [Work.Signal(FrameFence((n + 1) % QUEUE_SLOT_COUNT), n)]
  {
    AppendAssoc(InitWork(image), FrameHistory(n), FrameWork(n));
    AppendAssoc(RunHistory(image, n), [Execute(FrameList(n % QUEUE_SLOT_COUNT), RenderCommands(n % QUEUE_SLOT_COUNT))],
                [Work.Signal(FrameFence((n + 1) % QUEUE_SLOT_COUNT), n)]);
  }

  /** The fenceValues_ entry of `slot` after `i` frames: the last frame whose Present signalled that slot. */
  function LastFrameSignalled(i: nat, slot: nat): nat
  {
    if i == 0 then 0
    else if (i - 1 + 1) % QUEUE_SLOT_COUNT == slot then i - 1
    else LastFrameSignalled(i - 1, slot)
  }

  /** Frame i's Present changes the entry of the next slot only. */
  lemma LastFrameSignalledStep(i: nat, slot: nat)
    ensures LastFrameSignalled(i + 1, slot) == if (i + 1) % QUEUE_SLOT_COUNT == slot then i else LastFrameSignalled(i, slot)
  {
  }

  /** The wait of iteration i is on the value of frame i - 1: every frame waits for the previous one. */
  lemma WaitTarget(i: nat)
    ensures LastFrameSignalled(i, i % QUEUE_SLOT_COUNT) == if i == 0 then 0 else i - 1
  {
  }

  /** The first waits on slots 0 and 1 are on 0, the fences' creation value; the first on slot 2 is on 1. */
  lemma FirstWaits()
    ensures LastFrameSignalled(0, 0) == 0 && LastFrameSignalled(1, 1) == 0 && LastFrameSignalled(2, 2) == 1
  {
  }

  /** Frame j's work leaves the last signal on a slot's fence alone unless it signals that slot, with value j. */
  lemma LastSignalFrameWork(h: seq<Work>, j: nat, slot: nat)
    ensures LastSignal(h + FrameWork(j), FrameFence(slot), 0)
            == if (j + 1) % QUEUE_SLOT_COUNT == slot then j else LastSignal(h, FrameFence(slot), 0)
  {
    var e := Execute(FrameList(j % QUEUE_SLOT_COUNT), RenderCommands(j % QUEUE_SLOT_COUNT));
    var g := Work.Signal(FrameFence((j + 1) % QUEUE_SLOT_COUNT), j);
    AppendAssoc(h, [e], [g]);
    LastSignalAppend(h, e, FrameFence(slot), 0);
    LastSignalAppend(h + [e], g, FrameFence(slot), 0);
  }

  /** LastFrameSignalled is the last value signalled on the slot's fence by the first i frames, or 0. */
  lemma {:induction false} FrameHistoryLastSignal(i: nat, slot: nat)
    ensures LastSignal(FrameHistory(i), FrameFence(slot), 0) == LastFrameSignalled(i, slot)
  {
    if i > 0 {
      FrameHistoryLastSignal(i - 1, slot);
      assert FrameHistory(i) == FrameHistory(i - 1) + FrameWork(i - 1);
      LastSignalFrameWork(FrameHistory(i - 1), i - 1, slot);
      LastFrameSignalledStep(i - 1, slot);
    }
  }

  /** LastFrameSignalled is indeed the last value signalled on the slot's fence in the run's history. */
  lemma LastFrameSignalledIsLastSignal(image: Layout.Image, i: nat, slot: nat)
    ensures LastSignal(RunHistory(image, i), FrameFence(slot), 0) == LastFrameSignalled(i, slot)
  {
    UploadLeavesFrameFences(image, slot);
    LastSignalConcat(InitWork(image), FrameHistory(i), FrameFence(slot), 0);
    FrameHistoryLastSignal(i, slot);
  }

  /** Entry 2j + 1 of the frame history is frame j's signal. */
  lemma FrameSignalAt(n: nat, j: nat)
    requires j < n
    ensures FrameHistory(n)[2 * j + 1] == Work.Signal(FrameFence((j + 1) % QUEUE_SLOT_COUNT), j)
  {
    FrameHistoryAt(n, 2 * j + 1);
    assert (2 * j + 1) / 2 == j && (2 * j + 1) % 2 == 1;
  }

  /** The values signalled on any one fence grow by exactly QUEUE_SLOT_COUNT from one signal to the next. */
  lemma FrameSignalsPerFence(n: nat, j: nat)
    requires j + QUEUE_SLOT_COUNT < n
    ensures FrameHistory(n)[2 * j + 1] == Work.Signal(FrameFence((j + 1) % QUEUE_SLOT_COUNT), j)
    ensures FrameHistory(n)[2 * (j + QUEUE_SLOT_COUNT) + 1]
            == Work.Signal(FrameFence((j + 1) % QUEUE_SLOT_COUNT), j + QUEUE_SLOT_COUNT)
    ensures forall j' :: j < j' < j + QUEUE_SLOT_COUNT ==>
              FrameHistory(n)[2 * j' + 1].Signal? && FrameHistory(n)[2 * j' + 1].fence != FrameFence((j + 1) % QUEUE_SLOT_COUNT)
  {
    FrameSignalAt(n, j);
    FrameSignalAt(n, j + 3);
    forall j' | j < j' < j + 3
      ensures FrameHistory(n)[2 * j' + 1].Signal? && FrameHistory(n)[2 * j' + 1].fence != FrameFence((j + 1) % 3)
    {
      FrameSignalAt(n, j');
    }
  }

  /** The ring's next slot after the slot of frame i is the slot of frame i + 1. */
  lemma NextSlot(i: nat)
    ensures (i % QUEUE_SLOT_COUNT + 1) % QUEUE_SLOT_COUNT == (i + 1) % QUEUE_SLOT_COUNT
  {
  }

  /** Concatenation regroups. */
  lemma AppendAssoc<T>(a: seq<T>, b: seq<T>, c: seq<T>)
    ensures (a + b) + c == a + (b + c)
  {
  }

  /** The command list of `slot` names the constant buffer of `slot` and no other. */
  lemma RenderUsesOwnConstantBuffer(slot: nat, other: nat)
    requires other != slot
    ensures forall m :: 0 <= m < |RenderCommands(slot)| ==> !Mentions(RenderCommands(slot)[m], ConstantBuffer(other))
    ensures RenderCommands(slot)[8] == SetRootConstantBufferView(1, ConstantBuffer(slot))
  {
  }

  /**
   * Once the fence of the slot frame n - 1 was signalled on is seen at its value
   * n - 1 >= 1, the GPU has finished everything submitted so far.
   */
  lemma {:induction false} LatestSignalSeen(image: Layout.Image, n: nat, r: nat)
    requires 2 <= n && r <= |RunHistory(image, n)|
    requires LastSignal(RunHistory(image, n)[..r], FrameFence(n % QUEUE_SLOT_COUNT), 0) >= n - 1
    ensures r == |RunHistory(image, n)|
  {
    var h := RunHistory(image, n);
    var p := h[..r];
    var f := FrameFence(n % QUEUE_SLOT_COUNT);
    LastSignalSource(p, f, 0);
    var k :| 0 <= k < |p| && p[k] == Work.Signal(f, LastSignal(p, f, 0));
    assert h[k] == p[k];
    assert k >= 2;
    var q := k - 2;
    FrameHistoryAt(n, q);
    assert h[k] == FrameHistory(n)[q] == FrameWork(q / 2)[q % 2];
    assert q % 2 == 1 && q / 2 == LastSignal(p, f, 0);
    assert q / 2 == n - 1;
  }

  /**
   * The wait of iteration i, once returned, leaves no unfinished execution of the
   * slot's list and no unfinished command naming the slot's constant buffer: the
   * slot's allocator, list and constant buffer may be reused. From the third frame on
   * the wait even leaves nothing unfinished at all, so at most one frame is in flight.
   */
  lemma {:induction false} SlotFreeAfterWait(image: Layout.Image, i: nat, r: nat)
    requires |InitWork(image)| <= r <= |RunHistory(image, i)|
    requires LastSignal(RunHistory(image, i)[..r], FrameFence(i % QUEUE_SLOT_COUNT), 0)
             >= LastFrameSignalled(i, i % QUEUE_SLOT_COUNT)
    ensures forall k :: r <= k < |RunHistory(image, i)| && RunHistory(image, i)[k].Execute? ==>
              && RunHistory(image, i)[k].list != FrameList(i % QUEUE_SLOT_COUNT)
              && forall m :: 0 <= m < |RunHistory(image, i)[k].commands| ==>
                   !Mentions(RunHistory(image, i)[k].commands[m], ConstantBuffer(i % QUEUE_SLOT_COUNT))
    ensures i >= 2 ==> r == |RunHistory(image, i)|
  {
    if i >= 2 {
      WaitTarget(i);
      LatestSignalSeen(image, i, r);
    } else if i == 1 {
      FirstFrameUnfinished(image, r);
      RenderUsesOwnConstantBuffer(0, 1);
    }
  }

  /** During frame 1 the only execution possibly unfinished is frame 0's, of the list of slot 0. */
  lemma FirstFrameUnfinished(image: Layout.Image, r: nat)
    requires |InitWork(image)| <= r
    ensures forall k :: r <= k < |RunHistory(image, 1)| && RunHistory(image, 1)[k].Execute? ==>
              RunHistory(image, 1)[k] == Execute(FrameList(0), RenderCommands(0))
  {
    var h := RunHistory(image, 1);
    assert FrameHistory(1) == FrameWork(0);
    forall k | r <= k < |h| && h[k].Execute?
      ensures h[k] == Execute(FrameList(0), RenderCommands(0))
    {
      assert k == 2;
    }
  }

  /**
   * The drain after n frames (n != 1), once every slot's wait has returned, leaves
   * no unfinished GPU work.
   */
  lemma DrainRetiresAll(image: Layout.Image, n: nat, r: nat)
    requires n != 1
    requires |InitWork(image)| <= r <= |RunHistory(image, n)|
    requires forall s :: 0 <= s < QUEUE_SLOT_COUNT ==>
               LastSignal(RunHistory(image, n)[..r], FrameFence(s), 0) >= LastFrameSignalled(n, s)
    ensures r == |RunHistory(image, n)|
  {
    if n >= 2 {
      WaitTarget(n);
      LatestSignalSeen(image, n, r);
    }
  }

  /**
   * After a single frame the drain waits only on values the fences were created
   * with, so all three waits can pass while frame 0 is still unfinished.
   */
  lemma DrainAfterOneFrameMayNotWait(image: Layout.Image)
    ensures var h := RunHistory(image, 1);
      && (forall s :: 0 <= s < QUEUE_SLOT_COUNT ==> LastSignal(h[..2], FrameFence(s), 0) >= LastFrameSignalled(1, s))
      && 2 < |h| && h[2] == Execute(FrameList(0), RenderCommands(0))
  {
    var h := RunHistory(image, 1);
    assert FrameHistory(1) == FrameWork(0);
    assert h[..2] == InitWork(image);
    forall s | 0 <= s < QUEUE_SLOT_COUNT
      ensures LastSignal(h[..2], FrameFence(s), 0) == 0
    {
      LastSignalNone(h[..2], FrameFence(s), 0);
    }
  }

  /** The upload history signals no frame fence, so each reads its creation value 0 after it. */
  lemma UploadLeavesFrameFences(image: Layout.Image, s: nat)
    ensures LastSignal(InitWork(image), FrameFence(s), 0) == 0
    ensures LastSignal(InitWork(image)[..|InitWork(image)|], FrameFence(s), 0) == 0
  {
    LastSignalNone(InitWork(image), FrameFence(s), 0);
    assert InitWork(image)[..|InitWork(image)|] == InitWork(image);
  }

  /** The upload history is finished once the upload fence is seen at 1. */
  lemma UploadRetired(image: Layout.Image, r: nat)
    requires r <= |InitWork(image)|
    requires LastSignal(InitWork(image)[..r], UploadFence, 0) >= 1
    ensures r == |InitWork(image)|
  {
    var h := InitWork(image);
    LastSignalSource(h[..r], UploadFence, 0);
    var k :| 0 <= k < r && h[..r][k] == Work.Signal(UploadFence, LastSignal(h[..r], UploadFence, 0));
    assert h[k] == h[..r][k];
  }

  // ----- resource states -----

  /** The states the resources are created in. */
  function CreatedStates(): StateMap
  {
    map[VertexBuffer := StateCopyDest, IndexBuffer := StateCopyDest, Texture := StateCopyDest,
        UploadBuffer := StateGenericRead, UploadImage := StateGenericRead,
        ConstantBuffer(0) := StateGenericRead, ConstantBuffer(1) := StateGenericRead,
        ConstantBuffer(2) := StateGenericRead,
        BackBuffer(0) := StatePresent, BackBuffer(1) := StatePresent, BackBuffer(2) := StatePresent]
  }

  /** The states of steady-state rendering: the uploaded resources in their working states. */
  function WorkingStates(): StateMap
  {
    CreatedStates()[VertexBuffer := StateVertexAndConstantBuffer][IndexBuffer := StateIndexBuffer]
                   [Texture := StatePixelShaderResource]
  }

  /** From any states with the copy destinations in COPY_DEST, the upload is legal and moves each to its working state. */
  lemma UploadConsistentFrom(m: StateMap, image: Layout.Image)
    requires InState(m, VertexBuffer, StateCopyDest) && InState(m, IndexBuffer, StateCopyDest)
    requires InState(m, Texture, StateCopyDest)
    requires InState(m, UploadBuffer, StateGenericRead) && InState(m, UploadImage, StateGenericRead)
    ensures Consistent(m, UploadCommands(image))
    ensures Replay(m, UploadCommands(image))
            == m[VertexBuffer := StateVertexAndConstantBuffer][IndexBuffer := StateIndexBuffer]
                [Texture := StatePixelShaderResource]
  {
    var c := UploadCommands(image);
    var m1 := m[VertexBuffer := StateVertexAndConstantBuffer];
    var m2 := m1[IndexBuffer := StateIndexBuffer];
    ReplayConcat(m, c[..2], c[2..]);
    assert c[..2] + c[2..] == c;
    BarrierFreeRun(m, c[..2]);
    ReplayConcat(m, [c[2]], c[3..]);
    assert [c[2]] + c[3..] == c[2..];
    ReplayConcat(m1, [c[3]], c[4..]);
    assert [c[3]] + c[4..] == c[3..];
    ReplayConcat(m2, [c[4]], c[5..]);
    assert [c[4]] + c[5..] == c[4..];
    assert c[5..] == [c[5]];
  }

  /** The upload copies into resources in COPY_DEST and moves each to its working state. */
  lemma UploadConsistent(image: Layout.Image)
    ensures Consistent(CreatedStates(), UploadCommands(image))
    ensures Replay(CreatedStates(), UploadCommands(image)) == WorkingStates()
  {
    UploadConsistentFrom(CreatedStates(), image);
  }

  /** Setting a key and then setting it back to the value it had restores the map. */
  lemma UpdateRestores<K, V>(m: map<K, V>, k: K, v: V)
    requires k in m
    ensures m[k := v][k := m[k]] == m
  {
  }

  /** The working state of every resource a frame of `slot` uses; its back buffer is in PRESENT. */
  lemma WorkingStatesOfSlot(slot: nat)
    requires slot < QUEUE_SLOT_COUNT
    ensures InState(WorkingStates(), BackBuffer(slot), StatePresent)
    ensures InState(WorkingStates(), ConstantBuffer(slot), StateGenericRead)
    ensures InState(WorkingStates(), VertexBuffer, StateVertexAndConstantBuffer)
    ensures InState(WorkingStates(), IndexBuffer, StateIndexBuffer)
    ensures InState(WorkingStates(), Texture, StatePixelShaderResource)
  {
    if slot == 0 {
    } else if slot == 1 {
    } else {
    }
  }

  /**
   * From any states where the frame's resources are in their working states and the
   * back buffer is in PRESENT, the frame is legal and leaves every state as it was.
   */
  lemma FrameConsistentFrom(m: StateMap, slot: nat)
    requires InState(m, BackBuffer(slot), StatePresent) && InState(m, ConstantBuffer(slot), StateGenericRead)
    requires InState(m, VertexBuffer, StateVertexAndConstantBuffer) && InState(m, IndexBuffer, StateIndexBuffer)
    requires InState(m, Texture, StatePixelShaderResource)
    ensures Consistent(m, RenderCommands(slot))
    ensures Replay(m, RenderCommands(slot)) == m
  {
    var rt := m[BackBuffer(slot) := StateRenderTarget];
    var b1 := [Barrier(BackBuffer(slot), StatePresent, StateRenderTarget)];
    var b2 := [Barrier(BackBuffer(slot), StateRenderTarget, StatePresent)];
    BarrierFreeRun(m, RenderSetup(slot));
    BarrierFreeRun(rt, RenderBody(slot));
    ReplayConcat(m, RenderSetup(slot), b1);
    ReplayConcat(m, RenderSetup(slot) + b1, RenderBody(slot));
    ReplayConcat(m, RenderSetup(slot) + b1 + RenderBody(slot), b2);
    UpdateRestores(m, BackBuffer(slot), StateRenderTarget);
  }

  /** The back buffer goes PRESENT -> RENDER_TARGET -> PRESENT; everything else is used in its state. */
  lemma FrameConsistent(slot: nat)
    requires slot < QUEUE_SLOT_COUNT
    ensures Consistent(WorkingStates(), RenderCommands(slot))
    ensures Replay(WorkingStates(), RenderCommands(slot)) == WorkingStates()
  {
    WorkingStatesOfSlot(slot);
    FrameConsistentFrom(WorkingStates(), slot);
  }

  /**
   * The back buffer is in RENDER_TARGET state exactly while the clear through the
   * draw run (commands CLEAR_AT to BACK_TO_PRESENT_AT), and in PRESENT state before
   * and after.
   */
  lemma BackBufferStateDuringFrame(slot: nat, k: nat)
    requires slot < QUEUE_SLOT_COUNT && k <= |RenderCommands(slot)|
    ensures BackBuffer(slot) in Replay(WorkingStates(), RenderCommands(slot)[..k])
    ensures Replay(WorkingStates(), RenderCommands(slot)[..k])[BackBuffer(slot)]
            == if CLEAR_AT <= k <= BACK_TO_PRESENT_AT then StateRenderTarget else StatePresent
  {
    WorkingStatesOfSlot(slot);
    var m := WorkingStates();
    if k < CLEAR_AT {
      BackBufferBeforeClear(m, slot, k);
    } else if k <= BACK_TO_PRESENT_AT {
      BackBufferWhileDrawing(m, slot, k);
    } else {
      FrameConsistentFrom(m, slot);
      assert RenderCommands(slot)[..k] == RenderCommands(slot);
    }
  }

  /** Before the first barrier the back buffer keeps its state. */
  lemma BackBufferBeforeClear(m: StateMap, slot: nat, k: nat)
    requires InState(m, BackBuffer(slot), StatePresent) && k < CLEAR_AT
    ensures InState(Replay(m, RenderCommands(slot)[..k]), BackBuffer(slot), StatePresent)
  {
    var c := RenderCommands(slot);
    assert c[..k] == RenderSetup(slot)[..k];
    ReplayKeeps(m, c[..k], BackBuffer(slot));
  }

  /** From the first barrier up to the second the back buffer is a render target. */
  lemma BackBufferWhileDrawing(m: StateMap, slot: nat, k: nat)
    requires InState(m, BackBuffer(slot), StatePresent) && CLEAR_AT <= k <= BACK_TO_PRESENT_AT
    ensures InState(Replay(m, RenderCommands(slot)[..k]), BackBuffer(slot), StateRenderTarget)
  {
    var c := RenderCommands(slot);
    var b1 := [Barrier(BackBuffer(slot), StatePresent, StateRenderTarget)];
    var rt := Replay(m, RenderSetup(slot))[BackBuffer(slot) := StateRenderTarget];
    assert Replay(m, RenderSetup(slot) + b1) == rt by {
      ReplayConcat(m, RenderSetup(slot), b1);
    }
    assert c[..k] == RenderSetup(slot) + b1 + RenderBody(slot)[..k - CLEAR_AT];
    ReplayConcat(m, RenderSetup(slot) + b1, RenderBody(slot)[..k - CLEAR_AT]);
    ReplayKeeps(rt, RenderBody(slot)[..k - CLEAR_AT], BackBuffer(slot));
  }

  /** The draw (src/D3D12Sample.cpp line 145) runs while the back buffer is a render target. */
  lemma DrawIntoRenderTarget(m: StateMap, slot: nat)
    requires InState(m, BackBuffer(slot), StatePresent)
    ensures RenderCommands(slot)[DRAW_AT] == DrawIndexed(Layout.DRAW_INDEX_COUNT, 1, 0, 0, 0)
    ensures InState(Replay(m, RenderCommands(slot)[..DRAW_AT]), BackBuffer(slot), StateRenderTarget)
  {
    BackBufferWhileDrawing(m, slot, DRAW_AT);
  }

  lemma ExecutedInitWork(image: Layout.Image)
    ensures ExecutedCommands(InitWork(image)) == UploadCommands(image)
  {
    var w := InitWork(image);
    assert w[1..][1..] == [];
    assert ExecutedCommands(w[1..]) == [];
  }

  lemma ExecutedFrameWork(j: nat)
    ensures ExecutedCommands(FrameWork(j)) == RenderCommands(j % QUEUE_SLOT_COUNT)
  {
    var w := FrameWork(j);
    assert w[1..][1..] == [];
    assert ExecutedCommands(w[1..]) == [];
  }

  /** The resources every frame uses are in their working states and every back buffer is in PRESENT. */
  ghost predicate FramesReady(m: StateMap)
  {
    && InState(m, VertexBuffer, StateVertexAndConstantBuffer) && InState(m, IndexBuffer, StateIndexBuffer)
    && InState(m, Texture, StatePixelShaderResource)
    && forall s :: 0 <= s < QUEUE_SLOT_COUNT ==>
         InState(m, BackBuffer(s), StatePresent) && InState(m, ConstantBuffer(s), StateGenericRead)
  }

  lemma WorkingStatesReady()
    ensures FramesReady(WorkingStates())
  {
    WorkingStatesOfSlot(0);
    WorkingStatesOfSlot(1);
    WorkingStatesOfSlot(2);
  }

  /** From states ready for frames, the first n frames are legal and leave every state as it was. */
  lemma {:induction false} FramesConsistentFrom(m: StateMap, n: nat)
    requires FramesReady(m)
    ensures Consistent(m, ExecutedCommands(FrameHistory(n)))
    ensures Replay(m, ExecutedCommands(FrameHistory(n))) == m
  {
    if n == 0 {
      assert ExecutedCommands(FrameHistory(0)) == [];
    } else {
      FramesConsistentFrom(m, n - 1);
      FrameWorkConsistentAfter(m, FrameHistory(n - 1), n - 1);
    }
  }

  /** Appending frame j's work to a legal history that restores the states keeps both properties. */
  lemma FrameWorkConsistentAfter(m: StateMap, h: seq<Work>, j: nat)
    requires FramesReady(m)
    requires Consistent(m, ExecutedCommands(h)) && Replay(m, ExecutedCommands(h)) == m
    ensures Consistent(m, ExecutedCommands(h + FrameWork(j)))
    ensures Replay(m, ExecutedCommands(h + FrameWork(j))) == m
  {
    var slot := j % QUEUE_SLOT_COUNT;
    ExecutedCommandsConcat(h, FrameWork(j));
    ExecutedFrameWork(j);
    assert InState(m, BackBuffer(slot), StatePresent) && InState(m, ConstantBuffer(slot), StateGenericRead);
    FrameConsistentFrom(m, slot);
    ReplayConcat(m, ExecutedCommands(h), RenderCommands(slot));
  }

  /**
   * Replayed in submission order, every list of a run of n frames uses each resource
   * in the state that use needs and leaves all resources in their working states.
   */
  lemma RunConsistent(image: Layout.Image, n: nat)
    ensures Consistent(CreatedStates(), ExecutedCommands(RunHistory(image, n)))
    ensures Replay(CreatedStates(), ExecutedCommands(RunHistory(image, n))) == WorkingStates()
  {
    ExecutedCommandsConcat(InitWork(image), FrameHistory(n));
    ExecutedInitWork(image);
    UploadConsistent(image);
    WorkingStatesReady();
    FramesConsistentFrom(WorkingStates(), n);
    ReplayConcat(CreatedStates(), UploadCommands(image), ExecutedCommands(FrameHistory(n)));
  }

  // ----- CPU-side call order -----

  /** The calls the sample makes that matter for synchronization, in program order. */
  datatype Event =
    | CreateFenceCall(fence: FenceId, value: nat)
    | WaitFence(fence: FenceId, value: nat)
    | ResetAllocatorCall(list: ListId)
    | ResetList(list: ListId)
    | WriteConstants(slot: nat, frame: nat)
    | CloseList(list: ListId)
    | ExecuteList(list: ListId)
    | SignalFence(fence: FenceId, value: nat)
    | PresentFrame
    | GetBuffer(index: nat)
    | ReleaseInitObjects
    | CloseEvents

  /** Initialize's creation of the frame fences, all at 0. */
  function FrameFenceEvents(): seq<Event>
  {
    [CreateFenceCall(FrameFence(0), 0), CreateFenceCall(FrameFence(1), 0), CreateFenceCall(FrameFence(2), 0)]
  }

  /** Initialize's upload submission: the upload fence, then the init list closed, executed and signalled. */
  function UploadSubmitEvents(): seq<Event>
  {
    [CreateFenceCall(UploadFence, 0), CloseList(InitList), ExecuteList(InitList), SignalFence(UploadFence, 1)]
  }

  /** Initialize's end: wait for the upload, then reset and release the init objects. */
  function UploadWaitEvents(): seq<Event>
  {
    [WaitFence(UploadFence, 1), ResetAllocatorCall(InitList), ReleaseInitObjects]
  }

  /** Initialize's calls: fences, back buffer 0, then the upload protocol. */
  function InitEvents(): seq<Event>
  {
    FrameFenceEvents() + [GetBuffer(0)] + UploadSubmitEvents() + UploadWaitEvents()
  }

  /** Render's calls for `slot`, writing the constant of frame number `frame`. */
  function RenderEvents(slot: nat, frame: nat): seq<Event>
  {
    [ ResetAllocatorCall(FrameList(slot)), ResetList(FrameList(slot)), WriteConstants(slot, frame),
      CloseList(FrameList(slot)), ExecuteList(FrameList(slot)) ]
  }

  /** Present's calls when it moves to `next` and signals `value`. */
  function PresentEvents(next: nat, value: nat): seq<Event>
  {
    [PresentFrame, GetBuffer(next), SignalFence(FrameFence(next), value)]
  }

  /** The calls of iteration j of the frame loop: wait on the slot, Render, Present. */
  function IterationEvents(j: nat): seq<Event>
  {
    [WaitFence(FrameFence(j % QUEUE_SLOT_COUNT), LastFrameSignalled(j, j % QUEUE_SLOT_COUNT))]
    + RenderEvents(j % QUEUE_SLOT_COUNT, j + 1)
    + PresentEvents((j + 1) % QUEUE_SLOT_COUNT, j)
  }

  const ITERATION_EVENTS: nat := 9

  /** The calls of the first n iterations. */
  function FrameEvents(n: nat): (evs: seq<Event>)
    ensures |evs| == ITERATION_EVENTS * n
  {
    if n == 0 then [] else FrameEvents(n - 1) + IterationEvents(n - 1)
  }

  /** Call p of the frame loop is call p mod 9 of iteration p / 9. */
  lemma {:induction false} FrameEventsAt(n: nat, p: nat)
    requires p < ITERATION_EVENTS * n
    ensures FrameEvents(n)[p] == IterationEvents(p / ITERATION_EVENTS)[p % ITERATION_EVENTS]
  {
    if p < ITERATION_EVENTS * (n - 1) {
      FrameEventsAt(n - 1, p);
    } else {
      assert p / ITERATION_EVENTS == n - 1 && p % ITERATION_EVENTS == p - ITERATION_EVENTS * (n - 1);
      assert FrameEvents(n)[p] == IterationEvents(n - 1)[p - ITERATION_EVENTS * (n - 1)];
    }
  }

  /** The calls of Initialize and of the first n iterations. */
  function RunEvents(n: nat): seq<Event>
  {
    InitEvents() + FrameEvents(n)
  }

  /** A log extended by the wait, then Render's calls, then Present's calls has gained iteration n's calls. */
  lemma IterationEventsAfter(log: seq<Event>, n: nat)
    ensures log + [WaitFence(FrameFence(n % QUEUE_SLOT_COUNT), LastFrameSignalled(n, n % QUEUE_SLOT_COUNT))]
            + RenderEvents(n % QUEUE_SLOT_COUNT, n + 1) + PresentEvents((n + 1) % QUEUE_SLOT_COUNT, n)
            == log + IterationEvents(n)
  {
    var wait := [WaitFence(FrameFence(n % QUEUE_SLOT_COUNT), LastFrameSignalled(n, n % QUEUE_SLOT_COUNT))];
    var render, present := RenderEvents(n % QUEUE_SLOT_COUNT, n + 1), PresentEvents((n + 1) % QUEUE_SLOT_COUNT, n);
    AppendAssoc(log, wait + render, present);
    AppendAssoc(log, wait, render);
  }

  /** The drain after n frames: one wait per slot, on that slot's fenceValues_ entry. */
  function DrainEvents(n: nat): seq<Event>
  {
    [ WaitFence(FrameFence(0), LastFrameSignalled(n, 0)),
      WaitFence(FrameFence(1), LastFrameSignalled(n, 1)),
      WaitFence(FrameFence(2), LastFrameSignalled(n, 2)) ]
  }

  /** The slot an event waits on, if it is a wait on a frame fence. */
  function WaitSlot(e: Event): seq<nat>
  {
    if e.WaitFence? && e.fence.FrameFence? then [e.fence.slot] else []
  }

  /** The slots waited on, in order. */
  function FrameWaitSlots(evs: seq<Event>): seq<nat>
  {
    if evs == [] then [] else WaitSlot(evs[0]) + FrameWaitSlots(evs[1..])
  }

  lemma {:induction false} FrameWaitSlotsConcat(a: seq<Event>, b: seq<Event>)
    ensures FrameWaitSlots(a + b) == FrameWaitSlots(a) + FrameWaitSlots(b)
  {
    if a == [] {
      assert a + b == b;
    } else {
      assert (a + b)[0] == a[0];
      assert (a + b)[1..] == a[1..] + b;
      FrameWaitSlotsConcat(a[1..], b);
      AppendAssoc(WaitSlot(a[0]), FrameWaitSlots(a[1..]), FrameWaitSlots(b));
    }
  }

  /** Iteration j waits on slot j mod 3 and on nothing else. */
  lemma IterationWaitSlot(j: nat)
    ensures FrameWaitSlots(IterationEvents(j)) == [j % QUEUE_SLOT_COUNT]
  {
    var e := IterationEvents(j);
    var rest := e[1..];
    assert forall p :: 0 <= p < |rest| ==> !rest[p].WaitFence?;
    NoWaits(rest);
  }

  /** Iteration j waits on slot j mod 3: the slot sequence is 0, 1, 2, 0, 1, 2, ... */
  lemma {:induction false} RoundRobin(n: nat)
    ensures |FrameWaitSlots(FrameEvents(n))| == n
    ensures forall j :: 0 <= j < n ==> FrameWaitSlots(FrameEvents(n))[j] == j % QUEUE_SLOT_COUNT
  {
    if n > 0 {
      RoundRobin(n - 1);
      FrameWaitSlotsConcat(FrameEvents(n - 1), IterationEvents(n - 1));
      IterationWaitSlot(n - 1);
      RoundRobinSnoc(FrameWaitSlots(FrameEvents(n - 1)), n - 1);
    }
  }

  /** Appending slot n mod 3 to the first n slots of the ring order gives the first n + 1. */
  lemma RoundRobinSnoc(a: seq<nat>, n: nat)
    requires |a| == n && forall j :: 0 <= j < n ==> a[j] == j % QUEUE_SLOT_COUNT
    ensures var b := a + [n % QUEUE_SLOT_COUNT];
            |b| == n + 1 && forall j :: 0 <= j < n + 1 ==> b[j] == j % QUEUE_SLOT_COUNT
  {
  }

  lemma {:induction false} NoWaits(evs: seq<Event>)
    requires forall p :: 0 <= p < |evs| ==> !evs[p].WaitFence?
    ensures FrameWaitSlots(evs) == []
  {
    if evs != [] {
      assert forall p :: 0 <= p < |evs[1..]| ==> evs[1..][p] == evs[p + 1];
      NoWaits(evs[1..]);
    }
  }

  /** Seven frames wait on slots 0, 1, 2, 0, 1, 2, 0. */
  lemma SevenFrames()
    ensures FrameWaitSlots(FrameEvents(7)) == [0, 1, 2, 0, 1, 2, 0]
  {
    RoundRobin(7);
  }

  /**
   * Every reuse of a slot's allocator, list or constant buffer in the loop comes
   * after the wait on that slot's fence in the same iteration, and before that
   * iteration's Present.
   */
  lemma WaitBeforeReuse(n: nat, p: nat, slot: nat)
    requires p < |FrameEvents(n)|
    requires FrameEvents(n)[p] in {ResetAllocatorCall(FrameList(slot)), ResetList(FrameList(slot))}
             || (FrameEvents(n)[p].WriteConstants? && FrameEvents(n)[p].slot == slot)
    ensures var j := p / ITERATION_EVENTS;
      && j < n && slot == j % QUEUE_SLOT_COUNT
      && ITERATION_EVENTS * j < p < ITERATION_EVENTS * j + 6
      && FrameEvents(n)[ITERATION_EVENTS * j] == WaitFence(FrameFence(slot), LastFrameSignalled(j, slot))
      && FrameEvents(n)[ITERATION_EVENTS * j + 6] == PresentFrame
  {
    var j := p / ITERATION_EVENTS;
    FrameEventsAt(n, p);
    FrameEventsAt(n, ITERATION_EVENTS * j);
    FrameEventsAt(n, ITERATION_EVENTS * j + 6);
  }

  /** The drain issues exactly one wait per slot, on that slot's last signalled value. */
  lemma DrainWaitsEachSlot(n: nat)
    ensures |DrainEvents(n)| == QUEUE_SLOT_COUNT
    ensures FrameWaitSlots(DrainEvents(n)) == [0, 1, 2]
    ensures forall s :: 0 <= s < QUEUE_SLOT_COUNT ==> DrainEvents(n)[s] == WaitFence(FrameFence(s), LastFrameSignalled(n, s))
  {
    var d := DrainEvents(n);
    assert d[1..][1..][1..] == [];
    assert FrameWaitSlots(d[1..][1..]) == [2];
    assert FrameWaitSlots(d[1..]) == [1, 2];
  }

  /** In Initialize the upload list is closed, executed, signalled, waited on, and only then reset. */
  lemma UploadOrder()
    ensures InitEvents()[5] == CloseList(InitList) && InitEvents()[6] == ExecuteList(InitList)
    ensures InitEvents()[7] == SignalFence(UploadFence, 1) && InitEvents()[8] == WaitFence(UploadFence, 1)
    ensures InitEvents()[9] == ResetAllocatorCall(InitList)
    ensures forall p :: 0 <= p < |InitEvents()| && InitEvents()[p] == ResetAllocatorCall(InitList) ==> p > 8
  {
  }
}
