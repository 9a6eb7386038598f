/**
 * The stroke logic of `createInputPad` in glyph-tools.js: the pad holds a
 * glyph that the user draws by pressing on a node, moving across further
 * nodes and releasing. Each pointer event arrives here as the index of the
 * node under the pointer (or -1 for none), the answer of the hit test that
 * is not part of this model. Drawing and event dispatch are replaced by
 * counters of the `glyphchange` and `glyphstrokeend` events fired.
 *
 * The datatype `Pad` and the functions on it specify the transitions; the
 * class `InputPad` holds the state in place and is proved against them.
 */
module InputPads {
  import opened Wrappers
  import opened OrderedSets
  import opened Edges
  import opened Glyphs

  /** What the hit test yields: a node index, or -1 over no node. */
  type NodeHit = n: int | -1 <= n < NodeCount

  /** The pad's state: the glyph's edges in drawing order, the stroke
      variables, and how many change and stroke-end events have fired. */
  datatype Pad = Pad(
    edges: seq<Edge>,
    mouseDown: bool,
    lastNodeIndex: NodeHit,
    limitInputStroke: int,
    changeEvents: nat,
    strokeEndEvents: nat)

  /** A pad as created: empty, released, and with no stroke limit. */
  const Initial := Pad([], false, -1, -1, 0, 0)

  /** Between strokes no node is remembered. */
  predicate Settled(p: Pad)
  {
    !p.mouseDown ==> p.lastNodeIndex == -1
  }

  /** `addEdge` of the pad: a valid edge is appended (so that it can be
      undone) and a change is fired; an invalid one is ignored. */
  function DrawEdge(p: Pad, a: int, b: int): Pad
  {
    var e := NewEdge(a, b);
    if IsValid(e) then p.(edges := p.edges + [e], changeEvents := p.changeEvents + 1) else p
  }

  /** A press is taken when the pad is released and the stroke limit is not
      used up. */
  predicate AcceptsPress(p: Pad)
  {
    !p.mouseDown && p.limitInputStroke != 0
  }

  /** `onMouseDown`: a taken press uses up one stroke of a positive limit
      and remembers the node pressed on. */
  function Press(p: Pad, hit: NodeHit): Pad
  {
    if AcceptsPress(p) then
      p.(limitInputStroke := if p.limitInputStroke > 0 then p.limitInputStroke - 1 else p.limitInputStroke,
         mouseDown := true,
         lastNodeIndex := hit)
    else p
  }

  /** `onMouseUp`: ends the stroke and fires a stroke end. */
  function Release(p: Pad): Pad
  {
    if p.mouseDown then p.(mouseDown := false, lastNodeIndex := -1, strokeEndEvents := p.strokeEndEvents + 1)
    else p
  }

  /** `onMouseMove`: reaching a new node during a stroke draws an edge from
      the remembered node, when there is one, and remembers the new node. */
  function Move(p: Pad, hit: NodeHit): Pad
  {
    if p.mouseDown && hit != -1 && hit != p.lastNodeIndex then
      var q := if p.lastNodeIndex != -1 then DrawEdge(p, p.lastNodeIndex, hit) else p;
      q.(lastNodeIndex := hit)
    else p
  }

  /** `setGlyph` (and, with no edges, `clearGlyph`): replaces the edges and
      fires a change. */
  function WithGlyph(p: Pad, edges: seq<Edge>): Pad
  {
    p.(edges := edges, changeEvents := p.changeEvents + 1)
  }

  /** `removeLastEdge` of the pad: the new state and the edge removed,
      `None` (JavaScript's `null`) and no change when there is none. */
  function RemoveLast(p: Pad): (Pad, Option<Edge>)
  {
    if |p.edges| > 0 then
      (p.(edges := p.edges[..|p.edges| - 1], changeEvents := p.changeEvents + 1), Some(p.edges[|p.edges| - 1]))
    else (p, None)
  }

  /** A move to a new node during a stroke that began on a node always
      draws exactly the edge between the two nodes. */
  lemma MoveDrawsEdge(p: Pad, hit: NodeHit)
    requires p.mouseDown && hit != -1 && hit != p.lastNodeIndex && p.lastNodeIndex != -1
    ensures IsValid(NewEdge(p.lastNodeIndex, hit))
    ensures Move(p, hit).edges == p.edges + [NewEdge(p.lastNodeIndex, hit)]
    ensures Move(p, hit).changeEvents == p.changeEvents + 1
    ensures Move(p, hit).lastNodeIndex == hit
  {
    NewEdgeCanonical(p.lastNodeIndex, hit);
  }

  // ---------------------------------------------------------------------
  // Runs of pointer events
  // ---------------------------------------------------------------------

  /** The pointer events the pad listens to: `mousedown` and `touchstart`
      press, `mouseup`, `mouseleave` and `touchend` release, and `mousemove`
      and `touchmove` move. */
  datatype PointerEvent = Down(hit: NodeHit) | Up | MoveTo(hit: NodeHit)

  function Step(p: Pad, ev: PointerEvent): Pad
  {
    match ev
    case Down(hit) => Press(p, hit)
    case Up => Release(p)
    case MoveTo(hit) => Move(p, hit)
  }

  /** The state after the events, handled in order. */
  function Run(p: Pad, evs: seq<PointerEvent>): Pad
  {
    if evs == [] then p else Step(Run(p, evs[..|evs| - 1]), evs[|evs| - 1])
  }

  /** How many of the events were presses the pad took. */
  function Presses(p: Pad, evs: seq<PointerEvent>): nat
  {
    if evs == [] then 0
    else
      var q := Run(p, evs[..|evs| - 1]);
      Presses(p, evs[..|evs| - 1]) + if evs[|evs| - 1].Down? && AcceptsPress(q) then 1 else 0
  }

  /** Every event keeps the pad settled. */
  lemma {:induction false} RunSettled(p: Pad, evs: seq<PointerEvent>)
    requires Settled(p)
    ensures Settled(Run(p, evs))
  {
    if evs != [] {
      RunSettled(p, evs[..|evs| - 1]);
    }
  }

  /** The stroke limit: with a limit of `n >= 0` the pad takes at most `n`
      presses, and the limit drops by one for each; a negative limit means
      no limit and never changes. */
  lemma {:induction false} StrokeLimit(p: Pad, evs: seq<PointerEvent>)
    ensures p.limitInputStroke >= 0 ==>
      && Presses(p, evs) <= p.limitInputStroke
      && Run(p, evs).limitInputStroke == p.limitInputStroke - Presses(p, evs)
    ensures p.limitInputStroke < 0 ==> Run(p, evs).limitInputStroke == p.limitInputStroke
  {
    if evs != [] {
      StrokeLimit(p, evs[..|evs| - 1]);
    }
  }

  /** Once the limit is used up, a released pad ignores every pointer event. */
  lemma {:induction false} ExhaustedPadIgnoresEvents(p: Pad, evs: seq<PointerEvent>)
    requires !p.mouseDown && p.limitInputStroke == 0
    ensures Run(p, evs) == p
  {
    if evs != [] {
      ExhaustedPadIgnoresEvents(p, evs[..|evs| - 1]);
    }
  }

  /** Pointer events only append edges, each of them valid, and fire one
      change per edge appended. */
  lemma {:induction false} RunAppendsValidEdges(p: Pad, evs: seq<PointerEvent>)
    ensures |p.edges| <= |Run(p, evs).edges|
    ensures Run(p, evs).edges[..|p.edges|] == p.edges
    ensures forall k :: |p.edges| <= k < |Run(p, evs).edges| ==> IsValid(Run(p, evs).edges[k])
    ensures Run(p, evs).changeEvents == p.changeEvents + (|Run(p, evs).edges| - |p.edges|)
  {
    if evs != [] {
      var q := Run(p, evs[..|evs| - 1]);
      RunAppendsValidEdges(p, evs[..|evs| - 1]);
      var r := Step(q, evs[|evs| - 1]);
      assert r == Run(p, evs);
      assert |q.edges| <= |r.edges| && r.edges[..|q.edges|] == q.edges &&
        (forall k :: |q.edges| <= k < |r.edges| ==> IsValid(r.edges[k])) &&
        r.changeEvents == q.changeEvents + (|r.edges| - |q.edges|);
      assert r.edges[..|p.edges|] == r.edges[..|q.edges|][..|p.edges|];
    }
  }

  /** Every stroke end answers a taken press: the presses taken, plus one
      for a stroke already under way, are the stroke ends fired plus one for
      a stroke still under way. */
  lemma {:induction false} StrokeEndsMatchPresses(p: Pad, evs: seq<PointerEvent>)
    ensures Run(p, evs).strokeEndEvents + (if Run(p, evs).mouseDown then 1 else 0)
         == p.strokeEndEvents + Presses(p, evs) + (if p.mouseDown then 1 else 0)
  {
    if evs != [] {
      StrokeEndsMatchPresses(p, evs[..|evs| - 1]);
    }
  }

  // ---------------------------------------------------------------------
  // The pad
  // ---------------------------------------------------------------------

  class InputPad {
    /** The glyph being drawn, its edges in drawing order. */
    var glyph: Glyph
    var mouseDown: bool
    var lastNodeIndex: NodeHit
    var limitInputStroke: int
    /** How many `glyphchange` events have been fired. */
    var changeEvents: nat
    /** How many `glyphstrokeend` events have been fired. */
    var strokeEndEvents: nat

    ghost predicate Valid()
      reads this
    {
      glyph.Valid() && Settled(State0())
    }

    /** The stroke variables and counters, with no glyph. */
    ghost function State0(): Pad
      reads this
    {
      Pad([], mouseDown, lastNodeIndex, limitInputStroke, changeEvents, strokeEndEvents)
    }

    /** The state the pad stands for. */
    ghost function State(): Pad
      reads this, glyph.edges
    {
      Pad(glyph.edges.values, mouseDown, lastNodeIndex, limitInputStroke, changeEvents, strokeEndEvents)
    }

    constructor ()
      ensures Valid() && fresh(glyph) && fresh(glyph.edges) && State() == Initial
    {
      glyph := new Glyph();
      mouseDown := false;
      lastNodeIndex := -1;
      limitInputStroke := -1;
      changeEvents := 0;
      strokeEndEvents := 0;
    }

    /** `getGlyph`: a normalized copy of the glyph, which stays as drawn. */
    method GetGlyph() returns (g: Glyph)
      requires Valid()
      ensures fresh(g) && fresh(g.edges) && g.Valid()
      ensures StrictlySorted(g.edges.values, Edges.Less)
      ensures forall e :: e in g.edges.values <==> e in glyph.edges.values
    {
      g := glyph.Clone();
      g.Normalize();
    }

    /** `setGlyph`: the pad takes a copy of `newGlyph`. */
    method SetGlyph(newGlyph: Glyph)
      requires Valid() && newGlyph.Valid()
      modifies this
      ensures Valid() && fresh(glyph) && fresh(glyph.edges)
      ensures State() == WithGlyph(old(State()), newGlyph.edges.values)
    {
      glyph := newGlyph.Clone();
      changeEvents := changeEvents + 1;
    }

    /** `clearGlyph`: the pad starts over with an empty glyph. */
    method ClearGlyph()
      requires Valid()
      modifies this
      ensures Valid() && fresh(glyph) && fresh(glyph.edges)
      ensures State() == WithGlyph(old(State()), [])
    {
      glyph := new Glyph();
      changeEvents := changeEvents + 1;
    }

    /** The pad's `addEdge`. */
    method AddEdge(a: int, b: int)
      requires Valid()
      modifies glyph.edges, this
      ensures Valid() && glyph == old(glyph)
      ensures State() == DrawEdge(old(State()), a, b)
    {
      var e := NewEdge(a, b);
      if IsValid(e) {
        var ok := glyph.AddEdgeForced(e);
        if ok {
          changeEvents := changeEvents + 1;
        }
      }
    }

    /** The pad's `removeLastEdge`. */
    method RemoveLastEdge() returns (last: Option<Edge>)
      requires Valid()
      modifies glyph.edges, this
      ensures Valid() && glyph == old(glyph)
      ensures (State(), last) == RemoveLast(old(State()))
    {
      var n := glyph.GetEdgeCount();
      if n > 0 {
        last := glyph.RemoveLastEdge();
        changeEvents := changeEvents + 1;
      } else {
        last := None;
      }
    }

    method OnMouseDown(hit: NodeHit)
      requires Valid()
      modifies this
      ensures Valid() && glyph == old(glyph)
      ensures State() == Press(old(State()), hit)
    {
      if !mouseDown && limitInputStroke != 0 {
        if limitInputStroke > 0 {
          limitInputStroke := limitInputStroke - 1;
        }
        mouseDown := true;
        lastNodeIndex := hit;
      }
    }

    method OnMouseUp()
      requires Valid()
      modifies this
      ensures Valid() && glyph == old(glyph)
      ensures State() == Release(old(State()))
    {
      if mouseDown {
        mouseDown := false;
        lastNodeIndex := -1;
        strokeEndEvents := strokeEndEvents + 1;
      }
    }

    method OnMouseMove(hit: NodeHit)
      requires Valid()
      modifies glyph.edges, this
      ensures Valid() && glyph == old(glyph)
      ensures State() == Move(old(State()), hit)
    {
      if mouseDown {
        var newNodeIndex := hit;
        if newNodeIndex != -1 && newNodeIndex != lastNodeIndex {
          if lastNodeIndex != -1 {
            AddEdge(lastNodeIndex, newNodeIndex);
          }
          lastNodeIndex := newNodeIndex;
        }
      }
    }

    method SetLimitInputStroke(count: int)
      requires Valid()
      modifies this
      ensures Valid() && glyph == old(glyph)
      ensures State() == old(State()).(limitInputStroke := count)
    {
      limitInputStroke := count;
    }

    method GetLimitInputStroke() returns (count: int)
      ensures count == limitInputStroke
    {
      count := limitInputStroke;
    }
  }
}
