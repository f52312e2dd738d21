/**
 * Resource-state tracking. Each GPU resource carries a state tag; a command that
 * uses a resource must find it in the state that use needs, and a barrier must
 * name the resource's current state as its before-state. The GPU runs the
 * submitted command lists in order, so replaying them in submission order gives
 * the state every resource is in when each command executes.
 */
module ResourceStates {
  import opened Gpu

  type StateMap = map<Resource, ResourceState>

  predicate InState(m: StateMap, r: Resource, s: ResourceState)
  {
    r in m && m[r] == s
  }

  /** What each command demands of the states of the resources it uses. */
  predicate UseOk(m: StateMap, c: Command)
  {
    match c
    case Barrier(r, before, _) => InState(m, r, before)
    case CopyBufferRegion(dst, _, src, _, _) => InState(m, dst, StateCopyDest) && InState(m, src, StateGenericRead)
    case CopyTextureFromBuffer(dst, src, _, _) => InState(m, dst, StateCopyDest) && InState(m, src, StateGenericRead)
    case ClearRenderTarget(t) => InState(m, t, StateRenderTarget)
    case SetRootConstantBufferView(_, b) => InState(m, b, StateGenericRead)
    case SetVertexBuffer(b, _, _) => InState(m, b, StateVertexAndConstantBuffer)
    case SetIndexBuffer(b, _) => InState(m, b, StateIndexBuffer)
    case DrawIndexed(_, _, _, _, _) => InState(m, Texture, StatePixelShaderResource)
    case _ => true
  }

  /** Only a barrier changes a state tag, and it sets it to its after-state. */
  function Apply(m: StateMap, c: Command): StateMap
  {
    if c.Barrier? then m[c.resource := c.after] else m
  }

  /** The states after running `cmds` from `m`. */
  function Replay(m: StateMap, cmds: seq<Command>): StateMap
    decreases |cmds|
  {
    if cmds == [] then m else Replay(Apply(m, cmds[0]), cmds[1..])
  }

  /** Every command of `cmds`, run from `m`, finds its resources in the states it needs. */
  predicate Consistent(m: StateMap, cmds: seq<Command>)
    decreases |cmds|
  {
    cmds == [] || (UseOk(m, cmds[0]) && Consistent(Apply(m, cmds[0]), cmds[1..]))
  }

  lemma {:induction false} ReplayConcat(m: StateMap, a: seq<Command>, b: seq<Command>)
    ensures Replay(m, a + b) == Replay(Replay(m, a), b)
    ensures Consistent(m, a + b) <==> Consistent(m, a) && Consistent(Replay(m, a), b)
    decreases |a|
  {
    if a != [] {
      assert (a + b)[0] == a[0];
      assert (a + b)[1..] == a[1..] + b;
      ReplayConcat(Apply(m, a[0]), a[1..], b);
    } else {
      assert a + b == b;
    }
  }

  predicate NoBarrierOn(cmds: seq<Command>, r: Resource)
  {
    forall k :: 0 <= k < |cmds| ==> !(cmds[k].Barrier? && cmds[k].resource == r)
  }

  predicate NoBarriers(cmds: seq<Command>)
  {
    forall k :: 0 <= k < |cmds| ==> !cmds[k].Barrier?
  }

  /** Commands without a barrier on `r` leave its state as it was. */
  lemma {:induction false} ReplayKeeps(m: StateMap, cmds: seq<Command>, r: Resource)
    requires NoBarrierOn(cmds, r)
    ensures (r in Replay(m, cmds)) == (r in m)
    ensures r in m ==> Replay(m, cmds)[r] == m[r]
    decreases |cmds|
  {
    if cmds != [] {
      assert NoBarrierOn(cmds[1..], r) by {
        forall k | 0 <= k < |cmds[1..]| ensures !(cmds[1..][k].Barrier? && cmds[1..][k].resource == r) {
          assert cmds[1..][k] == cmds[k + 1];
        }
      }
      assert !(cmds[0].Barrier? && cmds[0].resource == r);
      ReplayKeeps(Apply(m, cmds[0]), cmds[1..], r);
    }
  }

  /** A barrier-free run whose every command is legal in `m` is consistent and changes nothing. */
  lemma {:induction false} BarrierFreeRun(m: StateMap, cmds: seq<Command>)
    requires NoBarriers(cmds)
    requires forall k :: 0 <= k < |cmds| ==> UseOk(m, cmds[k])
    ensures Consistent(m, cmds) && Replay(m, cmds) == m
    decreases |cmds|
  {
    if cmds != [] {
      assert forall k :: 0 <= k < |cmds[1..]| ==> cmds[1..][k] == cmds[k + 1];
      BarrierFreeRun(m, cmds[1..]);
    }
  }

  /** The commands of the executions in `ws`, in submission order. */
  function ExecutedCommands(ws: seq<Work>): (cmds: seq<Command>)
  {
    if ws == [] then []
    else (if ws[0].Execute? then ws[0].commands else []) + ExecutedCommands(ws[1..])
  }

  lemma {:induction false} ExecutedCommandsConcat(a: seq<Work>, b: seq<Work>)
    ensures ExecutedCommands(a + b) == ExecutedCommands(a) + ExecutedCommands(b)
  {
    if a == [] {
      assert a + b == b;
    } else {
      assert (a + b)[0] == a[0];
      assert (a + b)[1..] == a[1..] + b;
      ExecutedCommandsConcat(a[1..], b);
    }
  }
}
