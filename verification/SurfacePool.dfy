/** The zero-copy surface pool: the loop's free check takes two separate reads
    while any number of consumers encode, drop and are released on their own
    threads. */
module SurfacePool {
  import opened Common

  datatype Agent = Loop | Consumer(id: nat)

  /** The `Arc`s on one surface besides the pool's own, and the encoder retains on
      its pixel buffer besides the surface's own, each with who holds it. */
  datatype Surface = Surface(arcs: multiset<Agent>, retains: multiset<Agent>) {
    function StrongCount(): nat { 1 + |arcs| }

    function RetainCount(): nat { BASELINE_RETAIN + |retains| }

    ghost predicate Unheld() { arcs == multiset{} && retains == multiset{} }
  }

  const BASELINE_RETAIN := 1

  /** Where the loop's `acquire` has got to: about to read a strong count, about
      to read a retain count, or about to clone. */
  datatype Scan = Idle | Count(at: nat) | Retain(at: nat) | Clone(at: nat) | Nothing

  datatype Pool = Pool(surfaces: seq<Surface>, scan: Scan, acquisitions: nat)

  datatype Action =
    | Begin
    | ReadCount
    | ReadRetain
    | HandOut
    | GiveUp
    | Share(at: nat, from: Agent, to: Agent)
    | Encode(at: nat, who: nat)
    | Drop(at: nat, holder: Agent)
    | Release(at: nat, who: nat)

  function Init(n: nat): Pool {
    Pool(seq(n, _ => Surface(multiset{}, multiset{})), Idle, 0)
  }

  /** Only a holder clones or encodes; an encoder's retain outlives the call. */
  predicate Enabled(s: Pool, a: Action) {
    match a
    case Begin => s.scan.Idle?
    case ReadCount => s.scan.Count? && s.scan.at < |s.surfaces|
    case ReadRetain => s.scan.Retain? && s.scan.at < |s.surfaces|
    case HandOut => s.scan.Clone? && s.scan.at < |s.surfaces|
    case GiveUp => s.scan.Nothing?
    case Share(i, from, _) => i < |s.surfaces| && from in s.surfaces[i].arcs
    case Encode(i, who) => i < |s.surfaces| && Consumer(who) in s.surfaces[i].arcs
    case Drop(i, who) => i < |s.surfaces| && who in s.surfaces[i].arcs
    case Release(i, who) => i < |s.surfaces| && Consumer(who) in s.surfaces[i].retains
  }

  /** The scan goes on to the next surface, or ends with nothing. */
  function Onward(s: Pool, i: nat): Scan {
    if i < |s.surfaces| then Count(i) else Nothing
  }

  function Apply(s: Pool, a: Action): Pool
    requires Enabled(s, a)
  {
    match a
    case Begin => s.(scan := Onward(s, 0))
    case ReadCount =>
      var i := s.scan.at;
      s.(scan := if s.surfaces[i].StrongCount() == 1 then Retain(i) else Onward(s, i + 1))
    case ReadRetain =>
      var i := s.scan.at;
      s.(scan := if s.surfaces[i].RetainCount() <= BASELINE_RETAIN then Clone(i) else Onward(s, i + 1))
    case HandOut =>
      WithArcs(s, s.scan.at, s.surfaces[s.scan.at].arcs + multiset{Loop})
        .(scan := Idle, acquisitions := s.acquisitions + 1)
    case GiveUp => s.(scan := Idle)
    case Share(i, _, to) => WithArcs(s, i, s.surfaces[i].arcs + multiset{to})
    case Encode(i, who) => WithRetains(s, i, s.surfaces[i].retains + multiset{Consumer(who)})
    case Drop(i, who) => WithArcs(s, i, s.surfaces[i].arcs - multiset{who})
    case Release(i, who) => WithRetains(s, i, s.surfaces[i].retains - multiset{Consumer(who)})
  }

  function WithArcs(s: Pool, i: nat, arcs: multiset<Agent>): Pool
    requires i < |s.surfaces|
  {
    s.(surfaces := s.surfaces[i := s.surfaces[i].(arcs := arcs)])
  }

  function WithRetains(s: Pool, i: nat, retains: multiset<Agent>): Pool
    requires i < |s.surfaces|
  {
    s.(surfaces := s.surfaces[i := s.surfaces[i].(retains := retains)])
  }

  /** A count of one stays one, and then a baseline retain count stays baseline:
      nobody left holding an `Arc` can share, encode or retain. */
  ghost predicate Inv(s: Pool) {
    match s.scan
    case Idle => true
    case Nothing => true
    case Count(i) => i < |s.surfaces|
    case Retain(i) => i < |s.surfaces| && s.surfaces[i].arcs == multiset{}
    case Clone(i) => i < |s.surfaces| && s.surfaces[i].Unheld()
  }

  lemma StepKeeps(s: Pool, a: Action)
    requires Inv(s) && Enabled(s, a)
    ensures Inv(Apply(s, a))
  {
  }

  /** `states` is a run: `actions[k]` leads from `states[k]` to the next. */
  ghost predicate IsRun(states: seq<Pool>, actions: seq<Action>) {
    && |states| == |actions| + 1
    && states[0].scan.Idle?
    && forall k | 0 <= k < |actions| ::
         Enabled(states[k], actions[k]) && states[k + 1] == Apply(states[k], actions[k])
  }

  lemma {:induction false} RunKeeps(states: seq<Pool>, actions: seq<Action>, k: nat)
    requires IsRun(states, actions) && k < |states|
    ensures Inv(states[k]) && |states[k].surfaces| == |states[0].surfaces|
  {
    if k > 0 {
      RunKeeps(states, actions, k - 1);
      StepKeeps(states[k - 1], actions[k - 1]);
    }
  }

  /** Under any interleaving, a surface handed out has no other holder and no
      encoder reading it at the instant of the hand-out. */
  lemma HandsOutOnlyUnheld(states: seq<Pool>, actions: seq<Action>, k: nat)
    requires IsRun(states, actions) && k < |actions| && actions[k].HandOut?
    ensures states[k].scan.at < |states[k].surfaces|
    ensures states[k].surfaces[states[k].scan.at].Unheld()
    ensures states[k + 1].surfaces[states[k].scan.at] == Surface(multiset{Loop}, multiset{})
  {
    RunKeeps(states, actions, k);
  }

  /** The state in which surface `i` was found busy, at or after `from`. */
  ghost predicate BusyWithin(states: seq<Pool>, i: nat, from: nat, upTo: nat) {
    exists j | from <= j <= upTo && j < |states| ::
      i < |states[j].surfaces| && !states[j].surfaces[i].Unheld()
  }

  /** Surfaces the scan has passed by in `states[k]`. */
  ghost function Passed(s: Pool): nat {
    match s.scan
    case Idle => 0
    case Nothing => |s.surfaces|
    case Count(i) => i
    case Retain(i) => i
    case Clone(i) => i
  }

  lemma {:induction false} PassedWereBusy(states: seq<Pool>, actions: seq<Action>, from: nat, k: nat, i: nat)
    requires IsRun(states, actions) && from <= k < |states| && states[from].scan.Idle?
    requires forall j | from <= j < k :: !actions[j].HandOut? && !actions[j].GiveUp?
    requires i < Passed(states[k])
    ensures BusyWithin(states, i, from, k)
  {
    if k > from {
      var before := states[k - 1];
      RunKeeps(states, actions, k - 1);
      if i < Passed(before) {
        PassedWereBusy(states, actions, from, k - 1, i);
        var j :| from <= j <= k - 1 && j < |states|
              && i < |states[j].surfaces| && !states[j].surfaces[i].Unheld();
        assert BusyWithin(states, i, from, k);
      } else {
        assert actions[k - 1].ReadCount? || actions[k - 1].ReadRetain?;
        assert i == before.scan.at && !before.surfaces[i].Unheld();
      }
    }
  }

  /** A scan that ends with nothing saw every surface busy, each at some instant
      of that scan. */
  lemma NothingOnlyWhenAllBusy(states: seq<Pool>, actions: seq<Action>, from: nat, k: nat, i: nat)
    requires IsRun(states, actions) && from <= k < |states| && states[from].scan.Idle?
    requires forall j | from <= j < k :: !actions[j].HandOut? && !actions[j].GiveUp?
    requires states[k].scan.Nothing? && i < |states[k].surfaces|
    ensures BusyWithin(states, i, from, k)
  {
    PassedWereBusy(states, actions, from, k, i);
  }

  /** Left to itself an acquire hands out the first unheld surface, and comes back with
      nothing only if there is none. */
  lemma UndisturbedAcquire(s: Pool) returns (scan: seq<Action>, at: nat)
    requires s.scan.Idle?
    ensures forall a <- scan :: a.ReadCount? || a.ReadRetain?
    ensures at <= |s.surfaces| && forall k | 0 <= k < at :: !s.surfaces[k].Unheld()
    ensures at < |s.surfaces| ==>
              s.surfaces[at].Unheld() && After(s, [Begin] + scan) == Some(s.(scan := Clone(at)))
    ensures at == |s.surfaces| ==> After(s, [Begin] + scan) == Some(s.(scan := Nothing))
  {
    scan, at := ScanFrom(Apply(s, Begin), 0);
    StepOnto(s, Begin, scan);
  }

  lemma {:induction false} ScanFrom(s: Pool, i: nat) returns (scan: seq<Action>, at: nat)
    requires i <= |s.surfaces| && s.scan == Onward(s, i)
    ensures forall a <- scan :: a.ReadCount? || a.ReadRetain?
    ensures i <= at <= |s.surfaces| && forall k | i <= k < at :: !s.surfaces[k].Unheld()
    ensures at < |s.surfaces| ==> s.surfaces[at].Unheld() && After(s, scan) == Some(s.(scan := Clone(at)))
    ensures at == |s.surfaces| ==> After(s, scan) == Some(s.(scan := Nothing))
    decreases |s.surfaces| - i
  {
    if i == |s.surfaces| {
      scan, at := [], i;
    } else if s.surfaces[i].arcs != multiset{} {
      scan, at := ScanFrom(s.(scan := Onward(s, i + 1)), i + 1);
      StepOnto(s, ReadCount, scan);
      scan := [ReadCount] + scan;
    } else {
      if s.surfaces[i].retains == multiset{} {
        scan, at := [], i;
      } else {
        scan, at := ScanFrom(s.(scan := Onward(s, i + 1)), i + 1);
      }
      StepOnto(s.(scan := Retain(i)), ReadRetain, scan);
      scan := [ReadRetain] + scan;
      StepOnto(s, ReadCount, scan);
      scan := [ReadCount] + scan;
    }
  }

  lemma StepOnto(s: Pool, a: Action, rest: seq<Action>)
    requires Enabled(s, a)
    ensures After(s, [a] + rest) == After(Apply(s, a), rest)
  {
    assert ([a] + rest)[1..] == rest;
  }

  // ---------------------------------------------------------------------
  // Why both reads, and why in that order.
  // ---------------------------------------------------------------------

  ghost function After(s: Pool, actions: seq<Action>): Option<Pool>
    decreases |actions|
  {
    if actions == [] then Some(s)
    else if Enabled(s, actions[0]) then After(Apply(s, actions[0]), actions[1..])
    else None
  }

  /** A surface on loan, and then the encode and both drops that follow it. */
  const LENT := [Begin, ReadCount, ReadRetain, HandOut, Share(0, Loop, Consumer(0)), Drop(0, Loop)]
  const ENCODED := [Encode(0, 0), Drop(0, Consumer(0))]

  /** The strong count alone does not show a surface free: it reads 1 while an
      encoder still holds the buffer. Nor do both reads in the other order: the
      retain count reads its baseline before the encode and the strong count 1
      after it. */
  lemma NeitherReadAloneNorReversed()
    ensures var lent := After(Init(1), LENT);
            && lent.Some? && |lent.value.surfaces| == 1
            && lent.value.surfaces[0].RetainCount() == BASELINE_RETAIN
            && var encoded := After(lent.value, ENCODED);
            && encoded.Some? && |encoded.value.surfaces| == 1
            && encoded.value.surfaces[0].StrongCount() == 1
            && !encoded.value.surfaces[0].Unheld()
  {
    var lent := Pool([Surface(multiset{Consumer(0)}, multiset{})], Idle, 1);
    LentIsReached();
    OneSurface(lent.(surfaces := [Surface(multiset{Consumer(0)}, multiset{Consumer(0)})]), Drop(0, Consumer(0)));
    OneSurface(lent, Encode(0, 0));
    hide After;
    OneStep(lent, ENCODED, 0);
    OneStep(lent.(surfaces := [Surface(multiset{Consumer(0)}, multiset{Consumer(0)})]), ENCODED, 1);
    assert ENCODED[0..] == ENCODED;
    var encoded := Pool([Surface(multiset{}, multiset{Consumer(0)})], Idle, 1);
    assert multiset{Consumer(0)} - multiset{Consumer(0)} == multiset{};
    assert multiset{} + multiset{Consumer(0)} == multiset{Consumer(0)};
    NoSteps(encoded, ENCODED[2..]);
  }

  /** What a step does to a pool's only surface. */
  lemma OneSurface(s: Pool, a: Action)
    requires |s.surfaces| == 1 && Enabled(s, a)
    ensures |Apply(s, a).surfaces| == 1
    ensures Apply(s, a).surfaces == [Apply(s, a).surfaces[0]]
  {
  }

  lemma LentIsReached()
    ensures After(Init(1), LENT) == Some(Pool([Surface(multiset{Consumer(0)}, multiset{})], Idle, 1))
  {
    hide After;
    var s0 := Init(1);
    assert s0.surfaces == [Surface(multiset{}, multiset{})];
    assert LENT[0..] == LENT;
    OneStep(s0, LENT, 0);
    OneStep(s0.(scan := Count(0)), LENT, 1);
    OneStep(s0.(scan := Retain(0)), LENT, 2);
    OneStep(s0.(scan := Clone(0)), LENT, 3);
    HandedOutAndDropped(s0.(scan := Clone(0)));
  }

  lemma HandedOutAndDropped(s3: Pool)
    requires s3 == Pool([Surface(multiset{}, multiset{})], Clone(0), 0)
    ensures After(Apply(s3, LENT[3]), LENT[4..])
         == Some(Pool([Surface(multiset{Consumer(0)}, multiset{})], Idle, 1))
  {
    hide After;
    OneSurface(s3, LENT[3]);
    assert multiset{} + multiset{Loop} == multiset{Loop};
    var s4 := Pool([Surface(multiset{Loop}, multiset{})], Idle, 1);
    OneSurface(s4, LENT[4]);
    OneStep(s4, LENT, 4);
    assert multiset{Loop} + multiset{Consumer(0)} == multiset{Loop, Consumer(0)};
    var s5 := Pool([Surface(multiset{Loop, Consumer(0)}, multiset{})], Idle, 1);
    OneSurface(s5, LENT[5]);
    OneStep(s5, LENT, 5);
    assert multiset{Loop, Consumer(0)} - multiset{Loop} == multiset{Consumer(0)};
    NoSteps(Apply(s5, LENT[5]), LENT[6..]);
  }

  lemma OneStep(s: Pool, actions: seq<Action>, k: nat)
    requires k < |actions| && Enabled(s, actions[k])
    ensures After(s, actions[k..]) == After(Apply(s, actions[k]), actions[k + 1..])
  {
  }

  lemma NoSteps(s: Pool, actions: seq<Action>)
    requires actions == []
    ensures After(s, actions) == Some(s)
  {
  }
}
