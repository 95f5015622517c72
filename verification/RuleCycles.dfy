/** Preflight's static check that no automation rule can trigger itself: the
    relation "this rule's action can raise that rule's trigger", and the
    depth-first search for a cycle of it. */
module RuleCycles {
  import opened Common

  datatype TriggerKind =
    | StateChange | MediaStart | MediaEnd | Timer | StreamHealth | AudioLevel | Hotkey | TimeOfDay | RssKeyword

  datatype Rule = Rule(
    id: string,
    trigger: TriggerKind,
    params: map<string, string>,
    command: string,
    payload: map<string, string>)

  /** One command's row of the effects table, which is data and so a parameter. */
  datatype Effects = Effects(
    stateChange: seq<string>,
    mediaStart: bool,
    deferred: seq<string>,
    item: Option<string>)

  type EffectsTable = map<string, Effects>

  function Lookup(m: map<string, string>, k: string): Option<string> {
    if k in m then Some(m[k]) else None
  }

  /** Items narrow an edge only where both sides name one. */
  predicate ItemCanMatch(eff: Effects, from: Rule, to: Rule) {
    var want := Lookup(to.params, "itemRef");
    var got := if eff.item.Some? then Lookup(from.payload, eff.item.value) else None;
    want.Some? && got.Some? ==> want.value == got.value
  }

  /** The relation, with the reason that a refusal quotes. */
  function Edge(table: EffectsTable, from: Rule, to: Rule): Option<string> {
    if from.command !in table then None
    else
      var cmd, eff := from.command, table[from.command];
      match to.trigger
      case StateChange =>
        var field := Lookup(to.params, "field");
        if field.Some? && field.value in eff.stateChange
        then Some("`" + cmd + "` changes `" + field.value + "`") else None
      case MediaStart =>
        if eff.mediaStart && ItemCanMatch(eff, from, to)
        then Some("`" + cmd + "` puts an item on air (mediaStart)") else None
      case MediaEnd =>
        if "mediaEnd" in eff.deferred && ItemCanMatch(eff, from, to)
        then Some("`" + cmd + "` schedules an item's end (mediaEnd, deferred)") else None
      case Timer =>
        if "timer" in eff.deferred
        then Some("`" + cmd + "` starts the show clock (timer, deferred)") else None
      case StreamHealth =>
        if "streamHealth" in eff.deferred
        then Some("`" + cmd + "` moves the stream transport (streamHealth, deferred)") else None
      case AudioLevel =>
        if "audioLevel" in eff.deferred
        then Some("`" + cmd + "` moves a bus level (audioLevel, deferred)") else None
      case Hotkey => None
      case TimeOfDay => None
      case RssKeyword => None
  }

  /** The effect that raises a trigger after the command has returned. */
  function DeferredAs(kind: TriggerKind): Option<string> {
    match kind
    case MediaEnd => Some("mediaEnd")
    case Timer => Some("timer")
    case StreamHealth => Some("streamHealth")
    case AudioLevel => Some("audioLevel")
    case _ => None
  }

  /** An edge is an effect of the rule's command that the trigger listens for: the field
      it names changing, an item going on air, or a deferred effect of its own
      kind. A trigger on an item listens to an action on no other; and no command
      presses a key, moves the clock on the wall, or writes a headline. */
  lemma EdgeIsEffect(table: EffectsTable, from: Rule, to: Rule)
    ensures Edge(table, from, to).Some? ==> from.command in table
    ensures to.trigger.Hotkey? || to.trigger.TimeOfDay? || to.trigger.RssKeyword? ==> Edge(table, from, to).None?
    ensures from.command in table ==>
              var eff := table[from.command];
              && (to.trigger.StateChange? ==>
                    (Edge(table, from, to).Some? <==> "field" in to.params && to.params["field"] in eff.stateChange))
              && (to.trigger.MediaStart? ==>
                    (Edge(table, from, to).Some? <==> eff.mediaStart && !OtherItem(eff, from, to)))
              && (DeferredAs(to.trigger).Some? ==>
                    (Edge(table, from, to).Some?
                     <==> && DeferredAs(to.trigger).value in eff.deferred
                          && !(to.trigger.MediaEnd? && OtherItem(eff, from, to))))
  {
  }

  /** The trigger names an item, the action's payload names one, and they differ. */
  ghost predicate OtherItem(eff: Effects, from: Rule, to: Rule) {
    && "itemRef" in to.params && eff.item.Some? && eff.item.value in from.payload
    && to.params["itemRef"] != from.payload[eff.item.value]
  }

  /** Every reason begins by quoting the command that raises the trigger. */
  lemma ReasonNamesTheCommand(table: EffectsTable, from: Rule, to: Rule)
    requires Edge(table, from, to).Some?
    ensures ("`" + from.command) <= Edge(table, from, to).value
  {
    hide ItemCanMatch;
  }

  // ---------------------------------------------------------------------
  // Cycles of rules.
  // ---------------------------------------------------------------------

  /** Rule `a`'s action can raise rule `b`'s trigger. */
  ghost predicate Causes(table: EffectsTable, rules: seq<Rule>, a: nat, b: nat) {
    a < |rules| && b < |rules| && Edge(table, rules[a], rules[b]).Some?
  }

  /** Each rule of `path` causes the next. */
  ghost predicate IsPath(table: EffectsTable, rules: seq<Rule>, path: seq<nat>) {
    forall i | 0 <= i < |path| - 1 :: Causes(table, rules, path[i], path[i + 1])
  }

  /** A closed walk: a nonempty path whose last rule causes its first. Rules may
      repeat in it. */
  ghost predicate IsClosedWalk(table: EffectsTable, rules: seq<Rule>, path: seq<nat>) {
    && |path| > 0
    && IsPath(table, rules, path)
    && Causes(table, rules, path[|path| - 1], path[0])
  }

  ghost predicate Acyclic(table: EffectsTable, rules: seq<Rule>) {
    forall path :: !IsClosedWalk(table, rules, path)
  }

  datatype Step = Step(rule: nat, because: string)

  datatype CycleStep = CycleStep(rule: string, because: string)

  ghost predicate Distinct(steps: seq<Step>) {
    forall i, j | 0 <= i < j < |steps| :: steps[i].rule != steps[j].rule
  }

  /** Each step names the reason its rule causes the next step's, and `last` is
      what the final step causes. */
  ghost predicate IsTrail(table: EffectsTable, rules: seq<Rule>, steps: seq<Step>, last: nat) {
    forall i | 0 <= i < |steps| :: Explains(table, rules, steps[i], Follower(steps, i, last))
  }

  function Follower(steps: seq<Step>, i: nat, last: nat): nat
    requires i < |steps|
  {
    if i + 1 < |steps| then steps[i + 1].rule else last
  }

  /** The step's rule causes rule `b`, for the reason it gives. */
  ghost predicate Explains(table: EffectsTable, rules: seq<Rule>, step: Step, b: nat) {
    step.rule < |rules| && b < |rules| && Edge(table, rules[step.rule], rules[b]) == Some(step.because)
  }

  /** A simple cycle of rules, with the reason for every step. */
  ghost predicate IsCycle(table: EffectsTable, rules: seq<Rule>, steps: seq<Step>) {
    |steps| > 0 && Distinct(steps) && IsTrail(table, rules, steps, steps[0].rule)
  }

  lemma CycleIsClosedWalk(table: EffectsTable, rules: seq<Rule>, steps: seq<Step>)
    requires IsCycle(table, rules, steps)
    ensures !Acyclic(table, rules)
  {
    var path := seq(|steps|, i requires 0 <= i < |steps| => steps[i].rule);
    forall i | 0 <= i < |steps|
      ensures Causes(table, rules, steps[i].rule, Follower(steps, i, steps[0].rule))
    {
      assert Explains(table, rules, steps[i], Follower(steps, i, steps[0].rule));
    }
    assert path[|path| - 1] == steps[|steps| - 1].rule;
    assert Follower(steps, |steps| - 1, steps[0].rule) == path[0];
    forall i | 0 <= i < |path| - 1
      ensures Causes(table, rules, path[i], path[i + 1])
    {
      assert Follower(steps, i, steps[0].rule) == path[i + 1];
    }
    assert IsClosedWalk(table, rules, path);
  }

  /** The edges out of rule `a`, in rule order. */
  function Successors(table: EffectsTable, rules: seq<Rule>, a: nat, from: nat): (out: seq<Step>)
    requires a < |rules| && from <= |rules|
    ensures forall s <- out :: from <= s.rule < |rules| && Edge(table, rules[a], rules[s.rule]) == Some(s.because)
    ensures forall b | from <= b < |rules| && Causes(table, rules, a, b) :: exists s <- out :: s.rule == b
    decreases |rules| - from
  {
    if from == |rules| then []
    else
      var rest := Successors(table, rules, a, from + 1);
      var e := Edge(table, rules[a], rules[from]);
      if e.Some? then
        var out := [Step(from, e.value)] + rest;
        assert forall s <- rest :: s in out;
        assert Step(from, e.value) in out;
        out
      else rest
  }

  /** Every edge out of a finished rule leads to one that finished before it. */
  ghost predicate Finished(table: EffectsTable, rules: seq<Rule>, order: seq<nat>) {
    && (forall i, j | 0 <= i < j < |order| :: order[i] != order[j])
    && (forall i | 0 <= i < |order| :: order[i] < |rules|)
    && (forall i, b | 0 <= i < |order| && Causes(table, rules, order[i], b) :: b in order[..i])
  }

  lemma {:induction false} WalkDescends(table: EffectsTable, rules: seq<Rule>, order: seq<nat>, path: seq<nat>, k: nat)
    returns (first: nat, here: nat)
    requires Finished(table, rules, order) && IsPath(table, rules, path) && k < |path|
    requires path[0] in order
    ensures first < |order| && order[first] == path[0]
    ensures here < |order| && order[here] == path[k] && here + k <= first
  {
    if k == 0 {
      first :| 0 <= first < |order| && order[first] == path[0];
      here := first;
    } else {
      var prev;
      first, prev := WalkDescends(table, rules, order, path, k - 1);
      assert Causes(table, rules, path[k - 1], path[k - 1 + 1]);
      assert path[k] in order[..prev];
      here :| 0 <= here < prev && order[here] == path[k];
    }
  }

  /** When every rule has finished, no walk closes: each step of it would have
      finished strictly before the one before it. */
  lemma FinishedIsAcyclic(table: EffectsTable, rules: seq<Rule>, order: seq<nat>)
    requires Finished(table, rules, order)
    requires forall v | 0 <= v < |rules| :: v in order
    ensures Acyclic(table, rules)
  {
    forall path | IsClosedWalk(table, rules, path)
      ensures false
    {
      var first, last := WalkDescends(table, rules, order, path, |path| - 1);
    }
  }

  lemma TrailExtends(table: EffectsTable, rules: seq<Rule>, stack: seq<Step>, step: Step, w: nat)
    requires IsTrail(table, rules, stack, step.rule) && Explains(table, rules, step, w)
    ensures IsTrail(table, rules, stack + [step], w)
  {
  }

  /** Rule `v` is one of the trail's. */
  predicate Visiting(stack: seq<Step>, v: nat) {
    exists s <- stack :: s.rule == v
  }

  lemma VisitingPushed(stack: seq<Step>, step: Step)
    ensures forall v :: Visiting(stack + [step], v) <==> Visiting(stack, v) || v == step.rule
    ensures Distinct(stack) && !Visiting(stack, step.rule) ==> Distinct(stack + [step])
  {
  }

  function Position(stack: seq<Step>, v: nat): (k: nat)
    requires Visiting(stack, v)
    ensures k < |stack| && stack[k].rule == v
  {
    if stack[0].rule == v then 0
    else
      assert stack == [stack[0]] + stack[1..];
      1 + Position(stack[1..], v)
  }

  /** The part of the trail from a rule on the stack, closed by the edge back. */
  lemma TrailCloses(table: EffectsTable, rules: seq<Rule>, stack: seq<Step>, start: nat)
    requires start < |stack| && Distinct(stack) && IsTrail(table, rules, stack, stack[start].rule)
    ensures IsCycle(table, rules, stack[start..])
  {
  }

  const WHITE := 0
  const GRAY := 1
  const BLACK := 2

  lemma FinishNext(table: EffectsTable, rules: seq<Rule>, order: seq<nat>, v: nat, adj: seq<Step>)
    requires Finished(table, rules, order) && v < |rules| && v !in order
    requires forall b | 0 <= b < |rules| && Causes(table, rules, v, b) :: exists s <- adj :: s.rule == b
    requires forall s <- adj :: s.rule in order
    ensures Finished(table, rules, order + [v])
  {
    var next := order + [v];
    forall i, b | 0 <= i < |next| && Causes(table, rules, next[i], b)
      ensures b in next[..i]
    {
      if i < |order| {
        assert next[..i] == order[..i];
      } else {
        assert next[..i] == order;
      }
    }
  }

  class Search {
    const table: EffectsTable
    const rules: seq<Rule>
    const color: array<nat>
    var stack: seq<Step>

    /** The finished rules, in the order they finished. */
    ghost var order: seq<nat>

    /** The gray rules are those on the stack and `active`, the one being
        visited, which is on the stack only while one of its edges is followed. */
    ghost predicate Valid(active: set<nat>)
      reads this`stack, this`order, color
    {
      && color.Length == |rules|
      && (forall v | 0 <= v < |rules| :: color[v] in {WHITE, GRAY, BLACK})
      && (forall v | 0 <= v < |rules| :: color[v] == GRAY <==> Visiting(stack, v) || v in active)
      && Distinct(stack)
      && (forall v | 0 <= v < |rules| :: color[v] == BLACK <==> v in order)
      && Finished(table, rules, order)
    }

    ghost function Whites(): set<nat>
      requires color.Length == |rules|
      reads color
    {
      set v | 0 <= v < |rules| && color[v] == WHITE
    }

    constructor (table: EffectsTable, rules: seq<Rule>)
      ensures Valid({}) && this.table == table && this.rules == rules && stack == []
      ensures fresh(color) && forall v | 0 <= v < |rules| :: color[v] == WHITE
    {
      this.table, this.rules := table, rules;
      color := new nat[|rules|](_ => WHITE);
      stack, order := [], [];
    }

    /** Follow one edge out of `v`, the rule being visited. */
    method Follow(v: nat, e: Step) returns (found: Option<seq<Step>>)
      requires Valid({v}) && v < |rules| && color[v] == GRAY && !Visiting(stack, v) && IsTrail(table, rules, stack, v)
      requires Explains(table, rules, Step(v, e.because), e.rule)
      modifies this`stack, this`order, color
      ensures found.Some? ==> IsCycle(table, rules, found.value)
      ensures found.None? ==> Valid({v}) && stack == old(stack) && old(order) <= order && color[e.rule] == BLACK
      ensures found.None? ==> Whites() <= old(Whites()) && color[v] == GRAY
      decreases Whites(), 1
    {
      hide Edge, Finished, IsTrail, IsCycle, Visiting, Distinct;
      var w := e.rule;
      TrailExtends(table, rules, stack, Step(v, e.because), w);
      VisitingPushed(stack, Step(v, e.because));
      stack := stack + [Step(v, e.because)];
      assert Valid({});
      if color[w] == GRAY {
        var start := Position(stack, w);
        TrailCloses(table, rules, stack, start);
        return Some(stack[start..]);
      }
      if color[w] == WHITE {
        found := Visit(w);
        if found.Some? {
          return;
        }
      }
      found := None;
      stack := stack[..|stack| - 1];
      assert stack == old(stack);
    }

    method Visit(v: nat) returns (found: Option<seq<Step>>)
      requires Valid({}) && v < |rules| && color[v] == WHITE && IsTrail(table, rules, stack, v)
      modifies this`stack, this`order, color
      ensures found.Some? ==> IsCycle(table, rules, found.value)
      ensures found.None? ==> Valid({}) && stack == old(stack) && old(order) <= order && color[v] == BLACK
      ensures found.None? ==> Whites() <= old(Whites())
      decreases Whites(), 0
    {
      hide Edge, Finished, IsTrail, IsCycle;
      color[v] := GRAY;
      assert v !in Whites() && v in old(Whites());
      var adj := Successors(table, rules, v, 0);
      for i := 0 to |adj|
        invariant forall j | 0 <= j < i :: adj[j].rule in order
        invariant Valid({v}) && stack == old(stack) && old(order) <= order && color[v] == GRAY
        invariant Whites() < old(Whites())
      {
        assert adj[i] in adj;
        found := Follow(v, adj[i]);
        if found.Some? {
          return;
        }
      }
      FinishNext(table, rules, order, v, adj);
      color[v] := BLACK;
      order := order + [v];
      found := None;
    }
  }
  /** The steps of a cycle, named as the refusal names them. */
  function Named(rules: seq<Rule>, steps: seq<Step>): seq<CycleStep>
    requires forall s <- steps :: s.rule < |rules|
  {
    seq(|steps|, i requires 0 <= i < |steps| => CycleStep(rules[steps[i].rule].id, steps[i].because))
  }

  ghost predicate NamesCycle(table: EffectsTable, rules: seq<Rule>, named: seq<CycleStep>) {
    exists steps: seq<Step> :: IsCycle(table, rules, steps) && (forall s <- steps :: s.rule < |rules|) && named == Named(rules, steps)
  }

  lemma CycleInRange(table: EffectsTable, rules: seq<Rule>, steps: seq<Step>)
    requires IsCycle(table, rules, steps)
    ensures forall s <- steps :: s.rule < |rules|
  {
  }

  /** A cycle of rules, each step naming why its rule causes the next; `None`
      exactly when no closed walk exists. */
  method FindCycle(table: EffectsTable, rules: seq<Rule>) returns (cycle: Option<seq<CycleStep>>)
    ensures cycle.None? <==> Acyclic(table, rules)
    ensures cycle.Some? ==> NamesCycle(table, rules, cycle.value)
  {
    var search := new Search(table, rules);
    for v := 0 to |rules|
      invariant search.Valid({}) && search.stack == []
      invariant forall u | 0 <= u < v :: u in search.order
    {
      if search.color[v] == WHITE {
        var found := search.Visit(v);
        if found.Some? {
          CycleIsClosedWalk(table, rules, found.value);
          CycleInRange(table, rules, found.value);
          return Some(Named(rules, found.value));
        }
      } else {
        assert search.color[v] == BLACK;
      }
    }
    FinishedIsAcyclic(table, rules, search.order);
    return None;
  }
}
