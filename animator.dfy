/**
 * The ticker behind the animation (index.ts:130-148).  Only its `animated`
 * flag is modelled; the periodic timer it starts is replaced by explicit calls
 * of Render.Renderer.Tick.
 */
module Ticker {

  class Animator {
    var animated: bool

    constructor ()
      ensures !animated
    {
      animated := false;
    }

    /** Starts ticking unless already ticking; `began` says whether a timer was set up. */
    method Start() returns (began: bool)
      modifies this
      ensures animated
      ensures began == !old(animated)
    {
      began := !animated;
      if began {
        animated := true;
      }
    }

    /** Stops ticking if ticking; `ended` says whether a timer was cleared. */
    method Stop() returns (ended: bool)
      modifies this
      ensures !animated
      ensures ended == old(animated)
    {
      ended := animated;
      if ended {
        animated := false;
      }
    }
  }
}
