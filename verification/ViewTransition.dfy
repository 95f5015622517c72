/** Takes on the View: what is on screen when a take interrupts a mix, and what the
    next frame then shows. */
module ViewTransition {
  import opened Common

  type Item = string

  const MAX_UNDERLAY_LAYERS := 8
  const DEFAULT_MIX_FRAMES := 15

  datatype Kind = Cut | Mix

  /** What, how opaque, and the frame its own timeline began. */
  datatype FrozenLayer = FrozenLayer(item: Item, alpha: real, t0: nat)

  datatype Transition = Transition(
    fromItem: Option<Item>,
    fromStart: nat,
    toItem: Item,
    kind: Kind,
    duration: nat,
    start: nat,
    underlay: Option<seq<FrozenLayer>>)
  {
    /** The incoming item's opacity: rising evenly over the duration, all at once for a
        cut or no duration. */
    function Progress(frame: nat): real {
      if frame < start then 0.0
      else if kind.Cut? || duration == 0 then 1.0
      else if frame - start >= duration then 1.0
      else (frame - start) as real / duration as real
    }

    predicate IsComplete(frame: nat) { Progress(frame) >= 1.0 }
  }

  /** One drawn contribution to a frame; no item is an empty scene. */
  datatype Drawn = Drawn(item: Option<Item>, alpha: real, t0: nat)

  datatype Show = Show(viewItem: Option<Item>, viewStart: nat, transition: Option<Transition>) {

    /** What the View shows at `frame`, bottom up. */
    function Scene(frame: nat): seq<Drawn> {
      match transition
      case Some(t) =>
        if frame < t.start then [Drawn(t.fromItem, 1.0, t.fromStart)]
        else if t.kind.Mix? && !t.IsComplete(frame) then
          Beneath(t) + [Drawn(Some(t.toItem), t.Progress(frame), t.start)]
        else [Drawn(viewItem, 1.0, viewStart)]
      case None => [Drawn(viewItem, 1.0, viewStart)]
    }

    /** A mix is on the View at `frame`, begun and not complete. */
    predicate MidMix(frame: nat) {
      transition.Some? && transition.value.kind.Mix? && transition.value.start <= frame
      && !transition.value.IsComplete(frame)
    }
  }

  /** What the mix composites over: the frozen layers, or the outgoing item. */
  function Beneath(t: Transition): seq<Drawn> {
    match t.underlay
    case Some(layers) => Thawed(layers)
    case None => if t.fromItem.Some? then [Drawn(t.fromItem, 1.0, t.fromStart)] else []
  }

  function Thaw(l: FrozenLayer): Drawn { Drawn(Some(l.item), l.alpha, l.t0) }

  function Thawed(layers: seq<FrozenLayer>): seq<Drawn> {
    seq(|layers|, i requires 0 <= i < |layers| => Thaw(layers[i]))
  }

  predicate Shows(d: Drawn) { d.item.Some? && d.alpha > 0.0 }

  /** The layers that put anything on the screen. */
  function Visible(scene: seq<Drawn>): seq<Drawn> {
    if scene == [] then [] else ShownOf(scene[0]) + Visible(scene[1..])
  }

  function ShownOf(d: Drawn): seq<Drawn> { if Shows(d) then [d] else [] }

  /** What a mix is frozen over: its own frozen layers, or its outgoing item. */
  function Base(t: Transition): seq<FrozenLayer> {
    match t.underlay
    case Some(layers) => layers
    case None => if t.fromItem.Some? then [FrozenLayer(t.fromItem.value, 1.0, t.fromStart)] else []
  }

  /** The interrupted mix's layers: its base, and then its incoming item at the
      opacity it had reached, if any. */
  function Freeze(was: Transition, frame: nat): seq<FrozenLayer> {
    if was.Progress(frame) > 0.0
    then Base(was) + [FrozenLayer(was.toItem, was.Progress(frame), was.start)]
    else Base(was)
  }

  /** Past the cap the oldest layers go, but never the base. */
  function Capped<T>(layers: seq<T>): seq<T> {
    if |layers| <= MAX_UNDERLAY_LAYERS then layers
    else [layers[0]] + layers[|layers| - (MAX_UNDERLAY_LAYERS - 1)..]
  }

  /** A take of `item`: what the directive carries, and the master frame it lands
      in, if the clock runs. */
  datatype Take = Take(item: Item, transition: Option<string>, duration: Option<nat>, master: Option<nat>) {
    function Kind(): Kind { if transition == Some("mix") then Mix else Cut }

    function Frames(): nat {
      if duration.Some? then duration.value else if Kind().Mix? then DEFAULT_MIX_FRAMES else 0
    }

    /** The frame after the one it lands in. */
    function Start(): nat { if master.Some? then master.value + 1 else 0 }

    function FrozenFrame(): nat { if Start() == 0 then 0 else Start() - 1 }
  }

  function Underlay(take: Take, was: Option<Transition>): Option<seq<FrozenLayer>> {
    if take.Kind().Mix? && was.Some? && was.value.kind.Mix? && !was.value.IsComplete(take.FrozenFrame()) then
      var layers := Capped(Freeze(was.value, take.FrozenFrame()));
      if layers == [] then None else Some(layers)
    else None
  }

  function Taken(s: Show, take: Take): Show {
    Show(Some(take.item), take.Start(),
         Some(Transition(s.viewItem, s.viewStart, take.item, take.Kind(), take.Frames(), take.Start(),
                         Underlay(take, s.transition))))
  }

  class ViewBus {
    var viewItem: Option<Item>
    var viewStart: nat
    var transition: Option<Transition>

    ghost function Current(): Show
      reads this
    {
      Show(viewItem, viewStart, transition)
    }

    ghost predicate Valid()
      reads this
    {
      Coherent(Current())
    }

    constructor ()
      ensures Valid() && Current() == Show(None, 0, None)
    {
      viewItem, viewStart, transition := None, 0, None;
    }

    method ApplyTake(take: Take)
      requires Valid()
      modifies this
      ensures Valid() && Current() == Taken(old(Current()), take)
    {
      hide Coherent;
      TakeKeepsCoherence(Current(), take);
      var start := take.Start();
      var underlay: Option<seq<FrozenLayer>> := None;
      if take.Kind().Mix? && transition.Some? {
        var was := transition.value;
        if was.kind.Mix? && !was.IsComplete(take.FrozenFrame()) {
          var layers := Base(was);
          var progress := was.Progress(take.FrozenFrame());
          if progress > 0.0 {
            layers := layers + [FrozenLayer(was.toItem, progress, was.start)];
          }
          layers := TrimToCap(layers);
          underlay := if layers == [] then None else Some(layers);
        }
      }
      transition := Some(Transition(viewItem, viewStart, take.item, take.Kind(), take.Frames(), start, underlay));
      viewItem := Some(take.item);
      viewStart := start;
    }

    method TrimToCap(all: seq<FrozenLayer>) returns (layers: seq<FrozenLayer>)
      ensures layers == Capped(all)
    {
      layers := all;
      while |layers| > MAX_UNDERLAY_LAYERS
        invariant |layers| == |all| || MAX_UNDERLAY_LAYERS <= |layers| < |all|
        invariant all == [] || layers == [all[0]] + all[|all| - |layers| + 1..]
      {
        layers := layers[..1] + layers[2..];
      }
    }
  }

  // ---------------------------------------------------------------------
  // What every take keeps.
  // ---------------------------------------------------------------------

  /** The View holds the transition's incoming item from the transition's start;
      an underlay is nonempty, within the cap, and every layer of it shows. */
  ghost predicate Coherent(s: Show) {
    s.transition.Some? ==>
      && s.viewItem == Some(s.transition.value.toItem)
      && s.viewStart == s.transition.value.start
      && (s.transition.value.underlay.Some? ==> Stack(s.transition.value.underlay.value))
  }

  ghost predicate Stack(layers: seq<FrozenLayer>) {
    && 1 <= |layers| <= MAX_UNDERLAY_LAYERS
    && forall i | 0 <= i < |layers| :: 0.0 < layers[i].alpha <= 1.0
  }

  lemma TakeKeepsCoherence(s: Show, take: Take)
    requires Coherent(s)
    ensures Coherent(Taken(s, take))
  {
  }

  ghost function AfterTakes(s: Show, takes: seq<Take>): Show
    decreases |takes|
  {
    if takes == [] then s else AfterTakes(Taken(s, takes[0]), takes[1..])
  }

  /** However many takes interrupt one another, the underlay never passes eight
      layers and every one of them shows. */
  lemma {:induction false} ChainKeepsCoherence(s: Show, takes: seq<Take>)
    requires Coherent(s)
    ensures Coherent(AfterTakes(s, takes))
    decreases |takes|
  {
    if takes != [] {
      TakeKeepsCoherence(s, takes[0]);
      ChainKeepsCoherence(Taken(s, takes[0]), takes[1..]);
    }
  }

  lemma {:induction false} VisibleAppend(a: seq<Drawn>, b: seq<Drawn>)
    ensures Visible(a + b) == Visible(a) + Visible(b)
  {
    hide Shows, ShownOf;
    if a == [] {
      assert a + b == b;
    } else {
      VisibleAppend(a[1..], b);
      assert (a + b)[1..] == a[1..] + b;
      assert Visible(a + b) == ShownOf(a[0]) + Visible((a + b)[1..]);
    }
  }

  lemma {:induction false} AllVisible(a: seq<Drawn>)
    requires forall i | 0 <= i < |a| :: Shows(a[i])
    ensures Visible(a) == a
  {
    hide Shows;
    if a != [] {
      AllVisible(a[1..]);
      assert a == [a[0]] + a[1..];
    }
  }

  /** The frozen layers are exactly the displayed blend. */
  lemma FrozenIsDisplayed(s: Show, frame: nat)
    requires Coherent(s) && s.MidMix(frame)
    ensures Visible(s.Scene(frame)) == Thawed(Freeze(s.transition.value, frame))
  {
    var t := s.transition.value;
    var top := Drawn(Some(t.toItem), t.Progress(frame), t.start);
    VisibleAppend(Beneath(t), [top]);
    AllVisible(Beneath(t));
    assert Visible([top]) == if top.alpha > 0.0 then [top] else [];
  }

  /** The layers of `s` at `frame`, then the taken item, unseen yet. */
  ghost predicate Continues(s: Show, frame: nat, take: Take) {
    Taken(s, take).Scene(frame + 1) == Visible(s.Scene(frame)) + [Drawn(Some(take.item), 0.0, frame + 1)]
  }

  /** A mix take of positive duration, landing in a frame its predecessor has
      begun by, is continuous: the next frame shows exactly the layers this one
      shows, and the new item at zero. It fails only mid-mix, and exactly when
      nothing is yet visible or the blend is past the underlay's cap. */
  lemma MixTakeContinues(s: Show, take: Take, frame: nat)
    requires Coherent(s) && take.Kind().Mix? && take.Frames() > 0 && take.master == Some(frame)
    requires s.transition.Some? ==> s.transition.value.start <= frame
    ensures Continues(s, frame, take)
       <==> (s.MidMix(frame) ==> 1 <= |Visible(s.Scene(frame))| <= MAX_UNDERLAY_LAYERS)
  {
    var next := Taken(s, take);
    var t := next.transition.value;
    var top := Drawn(Some(take.item), 0.0, frame + 1);
    assert t.Progress(frame + 1) == 0.0;
    SameBelow(Beneath(t), Visible(s.Scene(frame)), top);
    if s.MidMix(frame) {
      FrozenIsDisplayed(s, frame);
      var layers := Freeze(s.transition.value, frame);
      assert |Thawed(Capped(layers))| == |Capped(layers)|;
    } else {
      assert t.underlay == None;
      assert s.Scene(frame) == [Drawn(s.viewItem, 1.0, s.viewStart)];
      assert Visible(s.Scene(frame)) == ShownOf(s.Scene(frame)[0]) + [];
    }
  }

  lemma SameBelow(a: seq<Drawn>, b: seq<Drawn>, top: Drawn)
    ensures a + [top] == b + [top] <==> a == b
  {
    assert a == (a + [top])[..|a|];
    assert b == (b + [top])[..|b|];
    if a + [top] == b + [top] {
      assert |a + [top]| == |b + [top]|;
    }
  }

  /** Mid-mix with anything visible, the next frame shows this frame's blend cut
      to the cap, which keeps its base and its newest seven layers. */
  lemma PastTheCap(s: Show, take: Take, frame: nat)
    requires Coherent(s) && take.Kind().Mix? && take.Frames() > 0 && take.master == Some(frame)
    requires s.MidMix(frame) && Visible(s.Scene(frame)) != []
    ensures Taken(s, take).Scene(frame + 1)
         == Capped(Visible(s.Scene(frame))) + [Drawn(Some(take.item), 0.0, frame + 1)]
  {
    hide Visible, Freeze;
    FrozenIsDisplayed(s, frame);
    var layers := Freeze(s.transition.value, frame);
    assert |Thawed(layers)| == |layers|;
    ThawCapped(layers);
    assert Taken(s, take).transition.value.underlay == Some(Capped(layers));
  }

  lemma ThawCapped(layers: seq<FrozenLayer>)
    ensures Thawed(Capped(layers)) == Capped(Thawed(layers))
  {
  }

  /** A mix's opacity rises by the same amount each frame, from nothing in the frame
      it starts to whole as its duration ends. */
  lemma ProgressIsEven(t: Transition, frame: nat)
    requires t.kind.Mix?
    ensures t.start <= frame <= t.start + t.duration && t.duration > 0 ==>
              t.Progress(frame) * t.duration as real == (frame - t.start) as real
    ensures t.IsComplete(frame) <==> t.start + t.duration <= frame
    ensures frame < t.start ==> t.Progress(frame) == 0.0
    ensures t.start + t.duration <= frame ==> t.Progress(frame) == 1.0
  {
    if t.start <= frame < t.start + t.duration {
      ShareOfDuration((frame - t.start) as real, t.duration as real);
    }
  }

  lemma ShareOfDuration(n: real, d: real)
    requires 0.0 <= n < d
    ensures n / d * d == n && n / d < 1.0
  {
  }

  /** A mix taken on a settled View: until the frame after the take the View is the old
      item alone; then, for the mix's frames (15 unless it names a number), the old
      item and over it the new one, a step more opaque each frame; and from then on
      the new item alone. */
  lemma MixRunsItsCourse(s: Show, take: Take, frame: nat) returns (opacity: real)
    requires take.transition == Some("mix") && Settled(s, take)
    ensures var start := if take.master.Some? then take.master.value + 1 else 0;
            var n := if take.duration.Some? then take.duration.value else 15;
            var scene, was := Taken(s, take).Scene(frame), Drawn(s.viewItem, 1.0, s.viewStart);
            if frame < start then scene == [was]
            else if start + n <= frame then scene == [Drawn(Some(take.item), 1.0, start)]
            else
              && scene == (if s.viewItem.Some? then [was] else []) + [Drawn(Some(take.item), opacity, start)]
              && opacity * n as real == (frame - start) as real
  {
    ProgressIsEven(Taken(s, take).transition.value, frame);
    SettledFreezesNothing(s, take);
    hide Transition.Progress, Underlay, Freeze, Capped;
    opacity := Taken(s, take).transition.value.Progress(frame);
  }

  lemma SettledFreezesNothing(s: Show, take: Take)
    requires Settled(s, take)
    ensures Underlay(take, s.transition) == None
  {
    if s.transition.Some? && s.transition.value.kind.Mix? {
      ProgressIsEven(s.transition.value, take.FrozenFrame());
    }
  }

  /** No mix is under way, or yet to come, in the frame the take lands in. */
  ghost predicate Settled(s: Show, take: Take) {
    s.transition.Some? && s.transition.value.kind.Mix? ==>
      s.transition.value.start + s.transition.value.duration <= (if take.master.Some? then take.master.value else 0)
  }

  /** Anything but a mix snaps: the View is the old item alone through the frame the take
      lands in, and the new item alone from the next. */
  lemma CutSnaps(s: Show, take: Take, frame: nat)
    requires take.transition != Some("mix")
    ensures var start := if take.master.Some? then take.master.value + 1 else 0;
            Taken(s, take).Scene(frame)
            == [if frame < start then Drawn(s.viewItem, 1.0, s.viewStart) else Drawn(Some(take.item), 1.0, start)]
  {
  }

  /** Interrupted before its item ever showed, with nothing beneath it, a mix
      leaves no underlay; its item then appears at full opacity at once. */
  lemma EmptyBlendIsNotContinuous()
    ensures var s := Show(Some("a"), 5, Some(Transition(None, 0, "a", Mix, 10, 5, None)));
            var take := Take("b", Some("mix"), Some(10), Some(5));
            && Visible(s.Scene(5)) == []
            && Taken(s, take).Scene(6) == [Drawn(Some("a"), 1.0, 5), Drawn(Some("b"), 0.0, 6)]
  {
  }
}
