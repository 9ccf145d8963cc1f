/**
 * The renderer's tap handling (index.ts:216-235): a tap starts the active
 * node and the ticker; every tick advances the active node; when its run
 * completes the swimmer moves on and the ticker stops.
 */
module Render {
  import opened Signals
  import opened AnimState
  import opened NodeChain
  import opened Swimmer
  import opened Ticker

  /** The value of a Renderer: its swimmer and whether its animator is running. */
  datatype RendererView = RendererView(ls: SwimmerView, animated: bool)

  /** What `new Renderer()` holds. */
  function InitialView(): (r: RendererView)
  {
    RendererView(InitialSwimmer(), false)
  }

  /** The renderer's invariant: the animator runs exactly while the active node moves. */
  predicate RendererOk(w: RendererView)
  {
    SwimmerOk(w.ls) && (w.animated <==> !Idle(w.ls.states[w.ls.curr]))
  }

  /** Nothing is moving: the state between gestures. */
  predicate Quiet(w: RendererView)
  {
    RendererOk(w) && !w.animated
  }

  /**
   * Renderer.handleTap: start the active node; only if it was idle does the
   * animator start.  `fired` says whether the gesture began.
   */
  function TapStep(w: RendererView): (r: Stepped<RendererView>)
    requires w.ls.curr < |w.ls.states|
    ensures r.fired <==> Idle(w.ls.states[w.ls.curr])
    ensures !r.fired ==> r.next == w
    ensures r.fired ==> r.next.animated
  {
    var s := SwimStart(w.ls);
    Stepped(RendererView(s.next, if s.fired then true else w.animated), s.fired)
  }

  /**
   * One tick of the animator: the swimmer is updated and, when the active
   * node's run completes, the animator stops.  `fired` says whether the run
   * completed.
   */
  function TickStep(w: RendererView): (r: Stepped<RendererView>)
    requires w.ls.curr < |w.ls.states|
    ensures r.fired ==> !r.next.animated
    ensures !r.fired ==> r.next.animated == w.animated
  {
    var s := SwimUpdate(w.ls);
    Stepped(RendererView(s.next, if s.fired then false else w.animated), s.fired)
  }

  /** `k` ticks in a row. */
  function Ticks(w: RendererView, k: nat): (r: RendererView)
    requires SwimmerOk(w.ls)
    ensures SwimmerOk(r.ls)
  {
    if k == 0 then w
    else
      var prior := Ticks(w, k - 1);
      SwimmerOkPreserved(prior.ls);
      TickStep(prior).next
  }

  lemma InitialViewQuiet()
    ensures Quiet(InitialView())
  {
  }

  /** Taps and ticks keep the animator flag tied to the active node's motion. */
  lemma RendererOkPreserved(w: RendererView)
    requires RendererOk(w)
    ensures RendererOk(TapStep(w).next)
    ensures RendererOk(TickStep(w).next)
  {
    SwimmerOkPreserved(w.ls);
    var s := w.ls.states[w.ls.curr];
    if UpdateStep(s).fired {
      CompletionOrSettled(s);
      var v := SwimUpdate(w.ls).next;
      assert Settled(v.states[v.curr]);
    }
  }

  /** A tap while a node is moving changes nothing; a tap at rest always begins a gesture. */
  lemma TapWhileAnimated(w: RendererView)
    requires RendererOk(w)
    ensures w.animated ==> TapStep(w) == Stepped(w, false)
    ensures !w.animated ==> TapStep(w).fired && TapStep(w).next.animated
  {
  }

  /** A tick at rest changes nothing and completes nothing. */
  lemma TickWhileQuiet(w: RendererView)
    requires Quiet(w)
    ensures TickStep(w) == Stepped(w, false)
  {
    var s := w.ls.states[w.ls.curr];
    SettledTickInert(s);
    assert w.ls.states[w.ls.curr := s] == w.ls.states;
  }

  /** What one whole gesture does to a quiet renderer. */
  function GestureResult(w: RendererView): (r: RendererView)
    requires Quiet(w)
    ensures Quiet(r)
    ensures r.ls.states[w.ls.curr].prevScale == 1.0 - w.ls.states[w.ls.curr].prevScale
  {
    var c := w.ls.curr;
    var p := 1.0 - w.ls.states[c].prevScale;
    var t := Traverse(c, w.ls.dir, |w.ls.states|);
    RendererView(
      SwimmerView(w.ls.states[c := Snapshot(p, 0.0, p)], t.next,
                  if t.fired then -w.ls.dir else w.ls.dir),
      false)
  }

  /**
   * During the first 350 ticks after a tap only the active node's scale
   * moves, and none of those ticks completes the gesture.
   */
  lemma {:induction false} TicksInRun(w: RendererView, k: nat)
    requires Quiet(w) && k < TicksPerRun
    ensures SwimmerOk(TapStep(w).next.ls)
    ensures Ticks(TapStep(w).next, k) ==
      RendererView(w.ls.(states := w.ls.states[w.ls.curr :=
        Elapsed(StartStep(w.ls.states[w.ls.curr]).next, k)]), true)
    ensures k < TicksPerRun - 1 ==> !TickStep(Ticks(TapStep(w).next, k)).fired
  {
    RendererOkPreserved(w);
    var s := w.ls.states[w.ls.curr];
    ElapsedInRun(s, k);
    if k < TicksPerRun - 1 {
      ElapsedInRun(s, k + 1);
    }
    if k > 0 {
      TicksInRun(w, k - 1);
    }
  }

  /** The 351st tick after a tap on a quiet renderer completes the gesture. */
  lemma LastTick(w: RendererView)
    requires Quiet(w)
    ensures SwimmerOk(TapStep(w).next.ls)
    ensures TickStep(Ticks(TapStep(w).next, TicksPerRun - 1)) == Stepped(GestureResult(w), true)
  {
    var c := w.ls.curr;
    var s := w.ls.states[c];
    RunCompletes(s);
    TicksInRun(w, TicksPerRun - 1);
    var e := Elapsed(StartStep(s).next, TicksPerRun - 1);
    var v := RendererView(w.ls.(states := w.ls.states[c := e]), true);
    var p := 1.0 - s.prevScale;
    assert UpdateStep(e) == Stepped(Snapshot(p, 0.0, p), true);
    assert w.ls.states[c := e][c := Snapshot(p, 0.0, p)] == w.ls.states[c := Snapshot(p, 0.0, p)];
    assert TickStep(v) == Stepped(GestureResult(w), true);
  }

  /**
   * A tap on a quiet renderer begins a gesture; the 351st tick, and no
   * earlier one, completes it, with the result GestureResult.
   */
  lemma GestureCompletes(w: RendererView)
    requires Quiet(w)
    ensures TapStep(w).fired
    ensures SwimmerOk(TapStep(w).next.ls)
    ensures forall j :: 0 <= j < TicksPerRun - 1 ==> !TickStep(Ticks(TapStep(w).next, j)).fired
    ensures TickStep(Ticks(TapStep(w).next, TicksPerRun - 1)) == Stepped(GestureResult(w), true)
  {
    LastTick(w);
    forall j | 0 <= j < TicksPerRun - 1
      ensures !TickStep(Ticks(TapStep(w).next, j)).fired
    {
      TicksInRun(w, j);
    }
  }

  /**
   * `m` gestures in a row, each a tap followed by ticks until the run
   * completes, which GestureCompletes shows to be GestureResult.
   */
  function Gestures(w: RendererView, m: nat): (r: RendererView)
    requires Quiet(w)
    ensures Quiet(r)
  {
    if m == 0 then w else GestureResult(Gestures(w, m - 1))
  }

  const Rest0: Snapshot := Initial
  const Rest1: Snapshot := Snapshot(1.0, 0.0, 1.0)

  /** A quiet renderer view with the given node states, active index and direction. */
  function At(states: seq<Snapshot>, curr: nat, dir: int): (r: RendererView)
  {
    RendererView(SwimmerView(states, curr, dir), false)
  }

  /**
   * Five gestures from the start visit every node forwards and leave the
   * last node active with the direction flipped.
   */
  lemma FiveGestures()
    ensures Gestures(InitialView(), 5) == At([Rest1, Rest1, Rest1, Rest1, Rest1], 4, -1)
  {
    var w := InitialView();
    assert w == At([Rest0, Rest0, Rest0, Rest0, Rest0], 0, 1);
    assert Gestures(w, 1) == At([Rest1, Rest0, Rest0, Rest0, Rest0], 1, 1);
    assert Gestures(w, 2) == At([Rest1, Rest1, Rest0, Rest0, Rest0], 2, 1);
    assert Gestures(w, 3) == At([Rest1, Rest1, Rest1, Rest0, Rest0], 3, 1);
    assert Gestures(w, 4) == At([Rest1, Rest1, Rest1, Rest1, Rest0], 4, 1);
  }

  /**
   * Ten gestures walk forwards to the end and back again, which restores the
   * starting state: the sequence of gestures is periodic.
   */
  lemma TenGestures()
    ensures Gestures(InitialView(), 10) == InitialView()
  {
    var w := InitialView();
    FiveGestures();
    assert Gestures(w, 6) == At([Rest1, Rest1, Rest1, Rest1, Rest0], 3, -1);
    assert Gestures(w, 7) == At([Rest1, Rest1, Rest1, Rest0, Rest0], 2, -1);
    assert Gestures(w, 8) == At([Rest1, Rest1, Rest0, Rest0, Rest0], 1, -1);
    assert Gestures(w, 9) == At([Rest1, Rest0, Rest0, Rest0, Rest0], 0, -1);
    assert w == At([Rest0, Rest0, Rest0, Rest0, Rest0], 0, 1);
  }

  class Renderer {
    const ls: LineSwimmer
    const animator: Animator

    /** The objects a Renderer is made of. */
    ghost function Repr(): (objs: set<object>)
    {
      {this, animator} + ls.Repr()
    }

    ghost function View(): (v: RendererView)
      reads ls, ls.chain.nodes, animator
    {
      RendererView(ls.View(), animator.animated)
    }

    ghost predicate Valid()
      reads ls, ls.chain, ls.chain.prev, ls.chain.next, ls.chain.nodes, animator
    {
      ls.Valid() && RendererOk(View())
    }

    constructor ()
      ensures Valid() && fresh(Repr())
      ensures View() == InitialView()
    {
      ls := new LineSwimmer();
      animator := new Animator();
    }

    /** A tap; `started` says whether it began a gesture. */
    method HandleTap() returns (started: bool)
      requires Valid()
      modifies Repr()
      ensures Valid()
      ensures Stepped(View(), started) == TapStep(old(View()))
    {
      ghost var before := View();
      started := ls.StartUpdating();
      if started {
        var _ := animator.Start();
      }
      RendererOkPreserved(before);
    }

    /** One tick of the running animator; `completed` says whether the gesture completed. */
    method Tick() returns (completed: bool)
      requires Valid()
      modifies Repr()
      ensures Valid()
      ensures Stepped(View(), completed) == TickStep(old(View()))
    {
      ghost var before := View();
      completed := ls.Update();
      if completed {
        var _ := animator.Stop();
      }
      RendererOkPreserved(before);
    }
  }
}
