/**
 * The chain of nodes, one per palette colour (index.ts:150-190).  Nodes live
 * in a sequence indexed 0 .. ColorCount - 1; the `prev` and `next` fields of
 * node i are the entries prev[i] and next[i], which hold a node index or
 * nothing.
 */
module NodeChain {
  import opened Signals
  import opened AnimState

  /** Number of palette colours, and so of nodes (index.ts:9-15). */
  const ColorCount: nat := 5

  /**
   * Where one step in direction `dir` leads from node i of a line of n nodes:
   * forward when dir == 1, backward otherwise, and back onto node i itself,
   * with the boundary signal fired, when there is no node that way.
   */
  function Traverse(i: nat, dir: int, n: nat): (r: Stepped<nat>)
    requires i < n
    ensures r.next < n
    ensures r.fired <==> (if dir == 1 then i + 1 == n else i == 0)
    ensures r.fired ==> r.next == i
    ensures !r.fired ==> r.next == (if dir == 1 then i + 1 else i - 1)
  {
    if dir == 1 then
      (if i + 1 < n then Stepped(i + 1, false) else Stepped(i, true))
    else
      (if i > 0 then Stepped(i - 1, false) else Stepped(i, true))
  }

  /** The shape `new LSNode(0)` builds: a doubly linked line of n nodes. */
  ghost predicate Linked(prev: seq<Option<nat>>, next: seq<Option<nat>>, n: nat)
  {
    |prev| == n && |next| == n &&
    (forall i :: 0 <= i < n - 1 ==> next[i] == Some(i + 1)) &&
    (forall i :: 1 <= i < n ==> prev[i] == Some(i - 1)) &&
    (n > 0 ==> prev[0] == None && next[n - 1] == None)
  }

  class Chain {
    const nodes: seq<State>
    const prev: array<Option<nat>>
    const next: array<Option<nat>>
    ghost const Repr: set<object>

    ghost predicate Valid()
      reads this, prev, next
    {
      Repr == {prev, next} + (set k | 0 <= k < |nodes| :: nodes[k]) &&
      prev != next &&
      |nodes| == ColorCount &&
      (forall i, j :: 0 <= i < j < |nodes| ==> nodes[i] != nodes[j]) &&
      Linked(prev[..], next[..], ColorCount)
    }

    /** `new LSNode(0)`: every node starts with a fresh state. */
    constructor ()
      ensures Valid() && fresh(Repr)
      ensures forall i :: 0 <= i < |nodes| ==> nodes[i].Snap() == Initial
    {
      var p := new Option<nat>[ColorCount](_ => None);
      var n := new Option<nat>[ColorCount](_ => None);
      var states := Build(0, p, n);
      nodes, prev, next := states, p, n;
      Repr := {p, n} + (set k | 0 <= k < |states| :: states[k]);
      new;
    }

    /**
     * The recursive construction of node i and the nodes after it: node i gets
     * a fresh state, then its successor is built and the two are linked both
     * ways.
     */
    static method Build(i: nat, prev: array<Option<nat>>, next: array<Option<nat>>)
      returns (states: seq<State>)
      requires i < ColorCount == prev.Length == next.Length && prev != next
      modifies prev, next
      decreases ColorCount - i
      ensures |states| == ColorCount - i
      ensures forall k :: 0 <= k < |states| ==> fresh(states[k]) && states[k].Snap() == Initial
      ensures forall k, l :: 0 <= k < l < |states| ==> states[k] != states[l]
      ensures forall j :: i <= j < ColorCount - 1 ==> next[j] == Some(j + 1) && prev[j + 1] == Some(j)
      ensures forall j :: 0 <= j <= i ==> prev[j] == old(prev[j])
      ensures forall j :: 0 <= j < i ==> next[j] == old(next[j])
      ensures next[ColorCount - 1] == old(next[ColorCount - 1])
    {
      var s := new State();
      if i < ColorCount - 1 {
        var rest := Build(i + 1, prev, next);
        next[i] := Some(i + 1);
        prev[i + 1] := Some(i);
        states := [s] + rest;
      } else {
        states := [s];
      }
    }

    /**
     * LSNode.getNext: the neighbour of node i in direction `dir`, or node i
     * itself with the boundary callback fired when that neighbour is missing.
     */
    function GetNext(i: nat, dir: int): (r: Stepped<nat>)
      reads this, prev, next
      requires Valid() && i < ColorCount
      ensures r == Traverse(i, dir, ColorCount)
    {
      var link := if dir == 1 then next[i] else prev[i];
      match link
      case Some(j) => Stepped(j, false)
      case None => Stepped(i, true)
    }
  }
}
