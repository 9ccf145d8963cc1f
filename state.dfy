/**
 * The per-node animation state machine.  A node is Idle (dir == 0), Advancing
 * (dir == 1) or Retreating (dir == -1); while it moves, every tick adds a fixed
 * step to its scale until a whole unit has been crossed, at which point the
 * scale snaps to the next checkpoint and the node is Idle again.
 */
module AnimState {
  import opened Signals

  /** Segments of the swimmer shape and sub-oscillators of its sway (index.ts:3-4). */
  const Parts: nat := 3
  const KParts: nat := 4

  /** The progress added per tick while a node moves (index.ts:5). */
  const ScGap: real := 0.02 / (Parts + KParts) as real

  /** Ticks of one full run: the least k with k * ScGap > 1. */
  const TicksPerRun: nat := 351

  /** The value held by a `State` object. */
  datatype Snapshot = Snapshot(scale: real, dir: real, prevScale: real)

  /** What `new State()` holds. */
  const Initial: Snapshot := Snapshot(0.0, 0.0, 0.0)

  function Abs(x: real): (r: real) { if x < 0.0 then -x else x }

  predicate Idle(s: Snapshot) { s.dir == 0.0 }

  /** The two settled positions a node can rest at. */
  predicate Checkpoint(x: real) { x == 0.0 || x == 1.0 }

  /** At rest on a checkpoint. */
  predicate Settled(s: Snapshot)
  {
    s.dir == 0.0 && Checkpoint(s.prevScale) && s.scale == s.prevScale
  }

  /** Between checkpoints, heading away from the last one. */
  predicate Moving(s: Snapshot)
  {
    Checkpoint(s.prevScale) && s.dir == 1.0 - 2.0 * s.prevScale && 0.0 <= s.scale <= 1.0
  }

  /** The states a node can be in between two calls. */
  predicate Consistent(s: Snapshot) { Settled(s) || Moving(s) }

  /**
   * One tick (State.update): the scale moves by ScGap in the direction `dir`;
   * once it is more than one unit away from the checkpoint it snaps to the
   * next checkpoint, the node stops and the completion callback fires.
   */
  function UpdateStep(s: Snapshot): (r: Stepped<Snapshot>)
    ensures r.fired ==> Idle(r.next) && r.next.scale == r.next.prevScale
    ensures !r.fired ==> r.next.dir == s.dir && r.next.prevScale == s.prevScale
  {
    var scale := s.scale + ScGap * s.dir;
    if Abs(scale - s.prevScale) > 1.0 then
      var settled := s.prevScale + s.dir;
      Stepped(Snapshot(settled, 0.0, settled), true)
    else
      Stepped(s.(scale := scale), false)
  }

  /**
   * State.startUpdating: only an idle node starts, heading away from its
   * checkpoint, and only then does the start callback fire.
   */
  function StartStep(s: Snapshot): (r: Stepped<Snapshot>)
    ensures r.fired <==> Idle(s)
    ensures !r.fired ==> r.next == s
    ensures r.fired ==> r.next.scale == s.scale && r.next.prevScale == s.prevScale
    ensures r.fired && s.prevScale == 0.0 ==> r.next.dir == 1.0
    ensures r.fired && s.prevScale == 1.0 ==> r.next.dir == -1.0
  {
    if s.dir == 0.0 then Stepped(s.(dir := 1.0 - 2.0 * s.prevScale), true)
    else Stepped(s, false)
  }

  /** `k` ticks in a row. */
  function Elapsed(s: Snapshot, k: nat): (r: Snapshot)
  {
    if k == 0 then s else UpdateStep(Elapsed(s, k - 1)).next
  }

  lemma ScGapValue()
    ensures ScGap == 1.0 / 350.0
  {
  }

  /** A fresh state is settled. */
  lemma InitialSettled()
    ensures Settled(Initial)
  {
  }

  /** Ticks and starts keep a node consistent, so `prevScale` stays 0 or 1. */
  lemma StepsKeepConsistent(s: Snapshot)
    requires Consistent(s)
    ensures Consistent(UpdateStep(s).next) && Consistent(StartStep(s).next)
  {
    ScGapValue();
    if s.dir == 1.0 {
      assert ScGap * s.dir == ScGap;
    } else if s.dir == -1.0 {
      assert ScGap * s.dir == -ScGap;
    }
  }

  /** A tick does nothing to a settled node and fires nothing. */
  lemma SettledTickInert(s: Snapshot)
    requires Settled(s)
    ensures UpdateStep(s) == Stepped(s, false)
  {
  }

  /** A node that completes a move lands on the other checkpoint. */
  lemma CompletionToggles(s: Snapshot)
    requires Moving(s) && UpdateStep(s).fired
    ensures Settled(UpdateStep(s).next)
    ensures UpdateStep(s).next.prevScale == 1.0 - s.prevScale
  {
  }

  /**
   * After k <= 350 ticks of a run started from a settled node, the scale is
   * k steps away from the checkpoint and no tick so far has completed.
   */
  lemma {:induction false} ElapsedInRun(s: Snapshot, k: nat)
    requires Settled(s) && k < TicksPerRun
    ensures Elapsed(StartStep(s).next, k) ==
      StartStep(s).next.(scale := s.prevScale + (1.0 - 2.0 * s.prevScale) * (k as real) * ScGap)
    ensures forall j :: 0 <= j < k ==> !UpdateStep(Elapsed(StartStep(s).next, j)).fired
  {
    var t := StartStep(s).next;
    var d := 1.0 - 2.0 * s.prevScale;
    ScGapValue();
    if k > 0 {
      ElapsedInRun(s, k - 1);
      var e := Elapsed(t, k - 1);
      var kk := (k - 1) as real;
      assert e.scale == s.prevScale + d * kk * ScGap;
      if s.prevScale == 0.0 {
        assert d == 1.0;
        assert e.scale + ScGap * e.dir == s.prevScale + d * (k as real) * ScGap;
      } else {
        assert d == -1.0;
        assert e.scale + ScGap * e.dir == s.prevScale + d * (k as real) * ScGap;
      }
      assert !UpdateStep(e).fired;
    }
  }

  /**
   * A run started from a settled node completes on exactly its 351st tick and
   * leaves the node settled on the other checkpoint.
   */
  lemma RunCompletes(s: Snapshot)
    requires Settled(s)
    ensures forall j :: 0 <= j < TicksPerRun - 1 ==> !UpdateStep(Elapsed(StartStep(s).next, j)).fired
    ensures UpdateStep(Elapsed(StartStep(s).next, TicksPerRun - 1)) ==
      Stepped(Snapshot(1.0 - s.prevScale, 0.0, 1.0 - s.prevScale), true)
    ensures Elapsed(StartStep(s).next, TicksPerRun) == Snapshot(1.0 - s.prevScale, 0.0, 1.0 - s.prevScale)
  {
    ElapsedInRun(s, TicksPerRun - 1);
    ScGapValue();
    var e := Elapsed(StartStep(s).next, TicksPerRun - 1);
    if s.prevScale == 0.0 {
      assert e.scale == 1.0;
    } else {
      assert e.scale == 0.0;
    }
  }

  /** The state of one node (index.ts:106-128), updated in place. */
  class State {
    var scale: real
    var dir: real
    var prevScale: real

    function Snap(): (s: Snapshot)
      reads this
    {
      Snapshot(scale, dir, prevScale)
    }

    constructor ()
      ensures Snap() == Initial
    {
      scale, dir, prevScale := 0.0, 0.0, 0.0;
    }

    /** One tick; `completed` says whether the completion callback fires. */
    method Update() returns (completed: bool)
      modifies this
      ensures Stepped(Snap(), completed) == UpdateStep(old(Snap()))
    {
      ghost var before := Snap();
      scale := scale + ScGap * dir;
      completed := Abs(scale - prevScale) > 1.0;
      if completed {
        scale := prevScale + dir;
        dir := 0.0;
        prevScale := scale;
      }
      assert Snap() == UpdateStep(before).next;
    }

    /** Starts a move if idle; `started` says whether the start callback fires. */
    method StartUpdating() returns (started: bool)
      modifies this
      ensures Stepped(Snap(), started) == StartStep(old(Snap()))
    {
      started := dir == 0.0;
      if started {
        dir := 1.0 - 2.0 * prevScale;
      }
    }
  }
}
