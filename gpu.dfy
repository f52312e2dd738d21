/**
 * The graphics API as the frame-pacing core sees it: fences, a single in-order
 * command queue that runs submitted work asynchronously, and command lists that
 * record commands. The GPU is an environment whose only observable effect is to
 * retire submitted work in submission order; retiring a signal raises that
 * fence's completed value to the signalled value.
 */
module Gpu {

  /** One fence per queue slot, plus the fence of the one-shot upload. */
  datatype FenceId = FrameFence(slot: nat) | UploadFence

  /** The per-slot command lists and the list used only for the upload. */
  datatype ListId = FrameList(slot: nat) | InitList

  /** The GPU resources the core touches. */
  datatype Resource =
    | VertexBuffer
    | IndexBuffer
    | Texture
    | UploadBuffer
    | UploadImage
    | ConstantBuffer(slot: nat)
    | BackBuffer(index: nat)

  /** The resource-state tags (D3D12_RESOURCE_STATE_*) that occur in the core. */
  datatype ResourceState =
    | StateGenericRead
    | StateCopyDest
    | StateVertexAndConstantBuffer
    | StateIndexBuffer
    | StatePixelShaderResource
    | StateRenderTarget
    | StatePresent

  /** The commands recorded into command lists, without their floating-point payloads. */
  datatype Command =
    | SetRenderTargets(target: Resource)
    | SetViewports
    | SetScissorRects
    | Barrier(resource: Resource, before: ResourceState, after: ResourceState)
    | ClearRenderTarget(target: Resource)
    | SetPipelineState
    | SetRootSignature
    | SetDescriptorHeaps
    | SetRootConstantBufferView(parameter: nat, buffer: Resource)
    | SetRootDescriptorTable(parameter: nat)
    | SetTriangleListTopology
    | SetVertexBuffer(vertexBuffer: Resource, vertexBytes: nat, stride: nat)
    | SetIndexBuffer(indexBuffer: Resource, indexBytes: nat)
    | DrawIndexed(indexCount: nat, instanceCount: nat, startIndex: nat, baseVertex: int, startInstance: nat)
    | CopyBufferRegion(dst: Resource, dstOffset: nat, src: Resource, srcOffset: nat, bytes: nat)
    | CopyTextureFromBuffer(texture: Resource, staging: Resource, rowPitch: int, slicePitch: int)

  /** An item of work handed to the command queue. */
  datatype Work =
    | Execute(list: ListId, commands: seq<Command>)
    | Signal(fence: FenceId, value: nat)

  /** Does command `c` name resource `r`? */
  predicate Mentions(c: Command, r: Resource)
  {
    match c
    case SetRenderTargets(t) => t == r
    case Barrier(t, _, _) => t == r
    case ClearRenderTarget(t) => t == r
    case SetRootConstantBufferView(_, b) => b == r
    case SetVertexBuffer(b, _, _) => b == r
    case SetIndexBuffer(b, _) => b == r
    case CopyBufferRegion(dst, _, src, _, _) => dst == r || src == r
    case CopyTextureFromBuffer(dst, src, _, _) => dst == r || src == r
    case _ => false
  }

  /** The value of the last signal on fence `f` in `h`, or `init` if there is none. */
  function LastSignal(h: seq<Work>, f: FenceId, init: nat): nat
  {
    if |h| == 0 then init
    else if h[|h| - 1].Signal? && h[|h| - 1].fence == f then h[|h| - 1].value
    else LastSignal(h[..|h| - 1], f, init)
  }

  lemma LastSignalAppend(h: seq<Work>, w: Work, f: FenceId, init: nat)
    ensures LastSignal(h + [w], f, init)
            == if w.Signal? && w.fence == f then w.value else LastSignal(h, f, init)
  {
    assert (h + [w])[..|h|] == h;
  }

  /** The history `a + b` ends with the last signal of `b`, or with that of `a` when `b` has none. */
  lemma {:induction false} LastSignalConcat(a: seq<Work>, b: seq<Work>, f: FenceId, init: nat)
    ensures LastSignal(a + b, f, init) == LastSignal(b, f, LastSignal(a, f, init))
    decreases |b|
  {
    if b == [] {
      assert a + b == a;
    } else {
      assert (a + b)[..|a + b| - 1] == a + b[..|b| - 1];
      LastSignalConcat(a, b[..|b| - 1], f, init);
    }
  }

  /** The last signalled value comes from a signal in `h`, unless it is the creation value. */
  lemma {:induction false} LastSignalSource(h: seq<Work>, f: FenceId, init: nat)
    ensures LastSignal(h, f, init) == init
            || exists k :: 0 <= k < |h| && h[k] == Signal(f, LastSignal(h, f, init))
  {
    if |h| > 0 && !(h[|h| - 1].Signal? && h[|h| - 1].fence == f) {
      var p := h[..|h| - 1];
      LastSignalSource(p, f, init);
      if LastSignal(p, f, init) != init {
        var k :| 0 <= k < |p| && p[k] == Signal(f, LastSignal(p, f, init));
        assert h[k] == p[k];
      }
    }
  }

  /** A history without a signal on `f` leaves `f` at its creation value. */
  lemma {:induction false} LastSignalNone(h: seq<Work>, f: FenceId, init: nat)
    requires forall k :: 0 <= k < |h| ==> !(h[k].Signal? && h[k].fence == f)
    ensures LastSignal(h, f, init) == init
  {
    if |h| > 0 {
      LastSignalNone(h[..|h| - 1], f, init);
    }
  }

  /**
   * Every signal in `h` is on a created fence and does not lower the value
   * signalled before it on that fence.
   */
  ghost predicate OrderedSignals(h: seq<Work>, initial: map<FenceId, nat>)
  {
    forall k :: 0 <= k < |h| ==> SignalOk(h, initial, k)
  }

  /** Item `k` of `h`, if a signal, is on a created fence and at least the value signalled before it. */
  ghost predicate SignalOk(h: seq<Work>, initial: map<FenceId, nat>, k: nat)
    requires k < |h|
  {
    h[k].Signal? ==> h[k].fence in initial && LastSignal(h[..k], h[k].fence, initial[h[k].fence]) <= h[k].value
  }

  /** Along ordered signals, the last value signalled on a fence only grows. */
  lemma {:induction false} LastSignalGrows(h: seq<Work>, initial: map<FenceId, nat>, f: FenceId, r: nat, r': nat)
    requires OrderedSignals(h, initial) && f in initial
    requires r <= r' <= |h|
    ensures LastSignal(h[..r], f, initial[f]) <= LastSignal(h[..r'], f, initial[f])
    decreases r' - r
  {
    if r < r' {
      LastSignalGrows(h, initial, f, r, r' - 1);
      assert SignalOk(h, initial, r' - 1);
      assert h[..r'] == h[..r' - 1] + [h[r' - 1]];
      LastSignalAppend(h[..r' - 1], h[r' - 1], f, initial[f]);
    }
  }

  /** A command list: the commands recorded since the last reset, and whether it is closed. */
  class CommandList {
    const id: ListId
    var commands: seq<Command>
    var closed: bool

    /** CreateCommandList hands out an open, empty list. */
    constructor (id: ListId)
      ensures this.id == id && commands == [] && !closed
    {
      this.id := id;
      commands := [];
      closed := false;
    }

    /**
     * Resetting the list's allocator reclaims the memory of the recorded commands,
     * so the GPU must have finished every submission of this list.
     */
    method ResetAllocator(queue: CommandQueue)
      requires closed && queue.Valid() && !queue.InFlight(id)
      modifies this
      ensures closed && commands == []
    {
      commands := [];
    }

    /** Reset reopens a closed list for recording. */
    method Reset()
      requires closed
      modifies this
      ensures !closed && commands == []
    {
      commands := [];
      closed := false;
    }

    method Record(c: Command)
      requires !closed
      modifies this
      ensures !closed && commands == old(commands) + [c]
    {
      commands := commands + [c];
    }

    method Close()
      requires !closed
      modifies this
      ensures closed && commands == old(commands)
    {
      closed := true;
    }
  }

  /**
   * The direct command queue together with the fences it signals. `submitted` is
   * everything handed to the queue, in order; the GPU has finished the first
   * `retired` items. `initial` holds each created fence's creation value.
   */
  class CommandQueue {
    var submitted: seq<Work>
    var retired: nat
    var initial: map<FenceId, nat>
    var completed: map<FenceId, nat>

    ghost predicate Valid()
      reads this
    {
      && retired <= |submitted|
      && completed.Keys == initial.Keys
      && OrderedSignals(submitted, initial)
      && forall f {:trigger CompletedIsLast(f)} :: f in initial ==> CompletedIsLast(f)
    }

    /** A fence's completed value is the last value signalled on it by the finished work. */
    ghost predicate CompletedIsLast(f: FenceId)
      reads this
      requires retired <= |submitted| && f in initial && f in completed
    {
      completed[f] == LastSignal(submitted[..retired], f, initial[f])
    }

    constructor ()
      ensures Valid() && submitted == [] && retired == 0 && initial == map[] && completed == map[]
    {
      submitted, retired, initial, completed := [], 0, map[], map[];
    }

    /** Some submitted execution of list `list` has not finished on the GPU. */
    ghost predicate InFlight(list: ListId)
      reads this
    {
      exists k :: retired <= k < |submitted| && submitted[k].Execute? && submitted[k].list == list
    }

    /** Some submitted, unfinished command names resource `r`. */
    ghost predicate Referenced(r: Resource)
      reads this
    {
      exists k, m :: retired <= k < |submitted| && submitted[k].Execute?
        && 0 <= m < |submitted[k].commands| && Mentions(submitted[k].commands[m], r)
    }

    /** The GPU never raises a fence past the largest value already signalled on it. */
    lemma CompletedBounded(f: FenceId)
      requires Valid() && f in initial
      ensures completed[f] <= LastSignal(submitted, f, initial[f])
    {
      assert CompletedIsLast(f);
      LastSignalGrows(submitted, initial, f, retired, |submitted|);
      assert submitted[..|submitted|] == submitted;
    }

    /** CreateFence: a new fence starts at its creation value. */
    method CreateFence(f: FenceId, value: nat)
      requires Valid() && f !in initial
      modifies this
      ensures Valid()
      ensures initial == old(initial)[f := value] && completed == old(completed)[f := value]
      ensures submitted == old(submitted) && retired == old(retired)
    {
      forall k | 0 <= k < |submitted[..retired]|
        ensures !(submitted[..retired][k].Signal? && submitted[..retired][k].fence == f)
      {
        assert submitted[..retired][k] == submitted[k];
        assert SignalOk(submitted, initial, k);
      }
      LastSignalNone(submitted[..retired], f, value);
      var before := initial;
      initial := initial[f := value];
      completed := completed[f := value];
      forall k | 0 <= k < |submitted|
        ensures SignalOk(submitted, initial, k)
      {
        assert SignalOk(submitted, before, k);
      }
      forall g | g in initial
        ensures CompletedIsLast(g)
      {
        if g != f {
          assert old(CompletedIsLast(g));
        }
      }
    }

    /** ExecuteCommandLists: hands a closed list's commands to the GPU. */
    method ExecuteCommandLists(list: CommandList)
      requires Valid() && list.closed
      modifies this
      ensures Valid()
      ensures submitted == old(submitted) + [Execute(list.id, list.commands)]
      ensures retired == old(retired) && initial == old(initial) && completed == old(completed)
    {
      Append(Execute(list.id, list.commands));
    }

    /** Signal: once all earlier work is done, the GPU raises `f` to `value`. */
    method Signal(f: FenceId, value: nat)
      requires Valid() && f in initial && LastSignal(submitted, f, initial[f]) <= value
      modifies this
      ensures Valid()
      ensures submitted == old(submitted) + [Work.Signal(f, value)]
      ensures retired == old(retired) && initial == old(initial) && completed == old(completed)
    {
      Append(Work.Signal(f, value));
    }

    method Append(w: Work)
      requires Valid()
      requires w.Signal? ==> w.fence in initial && LastSignal(submitted, w.fence, initial[w.fence]) <= w.value
      modifies this
      ensures Valid()
      ensures submitted == old(submitted) + [w]
      ensures retired == old(retired) && initial == old(initial) && completed == old(completed)
    {
      var h := submitted;
      submitted := submitted + [w];
      assert submitted[..retired] == h[..retired];
      forall k | 0 <= k < |submitted|
        ensures SignalOk(submitted, initial, k)
      {
        assert k < |h| ==> SignalOk(h, initial, k);
        if k < |h| {
          assert submitted[..k] == h[..k];
        } else {
          assert submitted[..k] == h;
        }
      }
      forall g | g in initial
        ensures CompletedIsLast(g)
      {
        assert old(CompletedIsLast(g));
      }
    }

    /** The GPU finishes the oldest unfinished item of work. */
    method RetireOne()
      requires Valid() && retired < |submitted|
      modifies this
      ensures Valid()
      ensures retired == old(retired) + 1
      ensures submitted == old(submitted) && initial == old(initial)
      ensures completed == if submitted[old(retired)].Signal?
                           then old(completed)[submitted[old(retired)].fence := submitted[old(retired)].value]
                           else old(completed)
      ensures forall g :: g in old(completed) ==> old(completed)[g] <= completed[g]
    {
      var w := submitted[retired];
      assert SignalOk(submitted, initial, retired);
      assert submitted[..retired + 1] == submitted[..retired] + [w];
      ghost var done := submitted[..retired];
      if w.Signal? {
        completed := completed[w.fence := w.value];
      }
      retired := retired + 1;
      forall g | g in initial
        ensures CompletedIsLast(g) && old(completed)[g] <= completed[g]
      {
        assert old(CompletedIsLast(g));
        LastSignalAppend(done, w, g, initial[g]);
      }
    }

    /** The GPU makes progress on its own: it finishes up to `steps` items of work. */
    method Advance(steps: nat)
      requires Valid()
      modifies this
      ensures Valid()
      ensures submitted == old(submitted) && initial == old(initial)
      ensures retired == if old(retired) + steps <= |submitted| then old(retired) + steps else |submitted|
      ensures forall g :: g in old(completed) ==> old(completed)[g] <= completed[g]
    {
      var n := 0;
      while n < steps && retired < |submitted|
        invariant Valid() && submitted == old(submitted) && initial == old(initial)
        invariant 0 <= n <= steps && retired == old(retired) + n
        invariant forall g :: g in old(completed) ==> old(completed)[g] <= completed[g]
      {
        RetireOne();
        n := n + 1;
      }
    }

    /** GetCompletedValue: a non-blocking read of a fence. */
    method GetCompletedValue(f: FenceId) returns (value: nat)
      requires Valid() && f in initial
      ensures value == completed[f]
    {
      value := completed[f];
    }
  }
}
