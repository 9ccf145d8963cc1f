/**
 * The line swimmer (index.ts:193-214): the active node of the chain and the
 * direction in which the next completed run moves it.
 */
module Swimmer {
  import opened Signals
  import opened AnimState
  import opened NodeChain

  /** The value of a LineSwimmer: every node's state, the active index and the direction. */
  datatype SwimmerView = SwimmerView(states: seq<Snapshot>, curr: nat, dir: int)

  /** What `new LineSwimmer()` holds: fresh nodes, node 0 active, heading forward. */
  function InitialSwimmer(): (r: SwimmerView)
  {
    SwimmerView(seq(ColorCount, _ => Initial), 0, 1)
  }

  /**
   * The swimmer's invariant: the active index is a node of the chain, the
   * direction is 1 or -1, every node is consistent and only the active node
   * can be moving.
   */
  predicate SwimmerOk(v: SwimmerView)
  {
    |v.states| == ColorCount && v.curr < ColorCount && (v.dir == 1 || v.dir == -1) &&
    forall i :: 0 <= i < |v.states| ==>
      Consistent(v.states[i]) && (i != v.curr ==> Settled(v.states[i]))
  }

  /** LineSwimmer.startUpdating: starts the active node's state, if idle. */
  function SwimStart(v: SwimmerView): (r: Stepped<SwimmerView>)
    requires v.curr < |v.states|
    ensures r.fired <==> Idle(v.states[v.curr])
    ensures !r.fired ==> r.next == v
    ensures r.next.curr == v.curr && r.next.dir == v.dir && |r.next.states| == |v.states|
    ensures forall i :: 0 <= i < |v.states| && i != v.curr ==> r.next.states[i] == v.states[i]
  {
    var s := StartStep(v.states[v.curr]);
    Stepped(v.(states := v.states[v.curr := s.next]), s.fired)
  }

  /**
   * LineSwimmer.updatge: one tick of the active node; when its run completes
   * the active index takes one step in `dir` through the chain, and when the
   * chain ends there the index stays and `dir` flips.
   */
  function SwimUpdate(v: SwimmerView): (r: Stepped<SwimmerView>)
    requires v.curr < |v.states|
    ensures |r.next.states| == |v.states|
    ensures forall i :: 0 <= i < |v.states| && i != v.curr ==> r.next.states[i] == v.states[i]
    ensures !r.fired ==> r.next.curr == v.curr && r.next.dir == v.dir
    ensures r.fired && (v.dir == 1 || v.dir == -1) ==>
      (r.next.curr == v.curr + v.dir && r.next.dir == v.dir) ||
      (r.next.curr == v.curr && r.next.dir == -v.dir)
    ensures r.fired && (v.dir == 1 || v.dir == -1) ==>
      (r.next.dir == -v.dir <==> !(0 <= v.curr + v.dir < |v.states|))
  {
    var s := UpdateStep(v.states[v.curr]);
    var states := v.states[v.curr := s.next];
    if s.fired then
      var t := Traverse(v.curr, v.dir, |v.states|);
      Stepped(SwimmerView(states, t.next, if t.fired then -v.dir else v.dir), true)
    else
      Stepped(v.(states := states), false)
  }

  lemma InitialSwimmerOk()
    ensures SwimmerOk(InitialSwimmer())
  {
  }

  /**
   * Starts and ticks keep the swimmer's invariant: the active index stays in
   * [0, ColorCount) and the direction in {1, -1}.
   */
  lemma SwimmerOkPreserved(v: SwimmerView)
    requires SwimmerOk(v)
    ensures SwimmerOk(SwimStart(v).next)
    ensures SwimmerOk(SwimUpdate(v).next)
  {
    var s := v.states[v.curr];
    StepsKeepConsistent(s);
    var u := UpdateStep(s);
    if u.fired {
      CompletionOrSettled(s);
    }
  }

  /** A tick that completes leaves the node settled. */
  lemma CompletionOrSettled(s: Snapshot)
    requires Consistent(s) && UpdateStep(s).fired
    ensures Settled(UpdateStep(s).next)
  {
    if Settled(s) {
      SettledTickInert(s);
    } else {
      CompletionToggles(s);
    }
  }

  /** The states of a sequence of State objects. */
  ghost function Snaps(nodes: seq<State>): (r: seq<Snapshot>)
    reads nodes
    ensures |r| == |nodes|
  {
    seq(|nodes|, k requires 0 <= k < |nodes| reads nodes => nodes[k].Snap())
  }

  class LineSwimmer {
    const chain: Chain
    var curr: nat
    var dir: int
    /** The objects a LineSwimmer is made of. */
    ghost function Repr(): (objs: set<object>)
    {
      {this} + chain.Repr
    }

    ghost function View(): (v: SwimmerView)
      reads this, chain.nodes
    {
      SwimmerView(Snaps(chain.nodes), curr, dir)
    }

    ghost predicate Valid()
      reads this, chain, chain.prev, chain.next, chain.nodes
    {
      chain.Valid() &&
      SwimmerOk(View())
    }

    /** `new LineSwimmer()`: a fresh chain, node 0 active, direction 1. */
    constructor ()
      ensures Valid() && fresh(Repr())
      ensures View() == InitialSwimmer()
    {
      chain := new Chain();
      curr, dir := 0, 1;
      new;
      assert Snaps(chain.nodes) == InitialSwimmer().states;
    }

    /** Starts the active node; `started` says whether the start callback fires. */
    method StartUpdating() returns (started: bool)
      requires Valid()
      modifies chain.nodes[curr]
      ensures Valid()
      ensures Stepped(View(), started) == SwimStart(old(View()))
    {
      ghost var before := View();
      started := chain.nodes[curr].StartUpdating();
      assert View().states == SwimStart(before).next.states;
      SwimmerOkPreserved(before);
    }

    /** One tick; `completed` says whether the active node's run completed. */
    method Update() returns (completed: bool)
      requires Valid()
      modifies this, chain.nodes[curr]
      ensures Valid()
      ensures Stepped(View(), completed) == SwimUpdate(old(View()))
    {
      ghost var before := View();
      completed := chain.nodes[curr].Update();
      assert Snaps(chain.nodes) == SwimUpdate(before).next.states;
      if completed {
        var step := chain.GetNext(curr, dir);
        curr := step.next;
        if step.fired {
          dir := -dir;
        }
      }
      SwimmerOkPreserved(before);
    }
  }
}
