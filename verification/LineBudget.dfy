/** A budget of five log lines for each second, and the count of those it withheld. */
module LineBudgets {
  import opened Common
  import opened MasterClock

  const LINES_PER_SECOND := 5

  /** When the current second began, how many lines passed in it, and how many have
      been withheld since a line last passed. */
  datatype Budget = Budget(window: Option<nat>, used: nat, suppressed: nat) {

    predicate IsOver(now: nat) { window.None? || now >= window.value + NS_PER_SECOND }

    predicate HasRoom(now: nat) { IsOver(now) || used < LINES_PER_SECOND }

    function Asked(now: nat): Budget {
      if IsOver(now) then Budget(Some(now), 1, 0)
      else if HasRoom(now) then Budget(window, used + 1, 0)
      else this.(suppressed := suppressed + 1)
    }
  }

  const UNUSED := Budget(None, 0, 0)

  function AfterAsks(b: Budget, asks: seq<nat>): Budget
    decreases |asks|
  {
    if asks == [] then b else AfterAsks(b.Asked(asks[0]), asks[1..])
  }

  /** Which of the asks were let through. */
  function Answers(b: Budget, asks: seq<nat>): seq<bool>
    decreases |asks|
  {
    if asks == [] then [] else [b.HasRoom(asks[0])] + Answers(b.Asked(asks[0]), asks[1..])
  }

  /** How many were let through in the second that began at `w`. */
  function PassedIn(b: Budget, asks: seq<nat>, w: nat): nat
    decreases |asks|
  {
    if asks == [] then 0
    else
      (if b.HasRoom(asks[0]) && b.Asked(asks[0]).window == Some(w) then 1 else 0)
      + PassedIn(b.Asked(asks[0]), asks[1..], w)
  }

  function UsedIn(b: Budget, w: nat): nat { if b.window == Some(w) then b.used else 0 }

  /** Whenever lines are asked for, at most five pass in any one second of the
      budget, and none in a second already over. */
  lemma {:induction false} AtMostFivePerWindow(b: Budget, asks: seq<nat>, w: nat)
    requires b.used <= LINES_PER_SECOND
    ensures UsedIn(b, w) + PassedIn(b, asks, w) <= LINES_PER_SECOND
    ensures b.window.Some? && w < b.window.value ==> PassedIn(b, asks, w) == 0
    decreases |asks|
  {
    if asks != [] {
      AtMostFivePerWindow(b.Asked(asks[0]), asks[1..], w);
    }
  }

  /** A line is withheld exactly when five have passed in a second that is not over. */
  lemma WithheldExactlyAfterFive(asks: seq<nat>, now: nat)
    ensures var b := AfterAsks(UNUSED, asks);
            !b.HasRoom(now) <==> !b.IsOver(now) && PassedIn(UNUSED, asks, b.window.value) == LINES_PER_SECOND
  {
    var b := AfterAsks(UNUSED, asks);
    if b.window.Some? {
      UsedIsPassed(UNUSED, asks, b.window.value);
      AtMostFivePerWindow(UNUSED, asks, b.window.value);
    }
  }

  lemma {:induction false} UsedIsPassed(b: Budget, asks: seq<nat>, w: nat)
    requires AfterAsks(b, asks).window == Some(w) && (b.window.Some? ==> b.window.value <= w)
    ensures AfterAsks(b, asks).used == UsedIn(b, w) + PassedIn(b, asks, w)
    decreases |asks|
  {
    if asks != [] {
      WindowsRise(b.Asked(asks[0]), asks[1..]);
      UsedIsPassed(b.Asked(asks[0]), asks[1..], w);
      if b.window.Some? && b.window.value < w {
        WindowsRise(b, asks);
      }
    }
  }

  /** A later second begins at least a second after the one before it. */
  lemma {:induction false} WindowsRise(b: Budget, asks: seq<nat>)
    ensures b.window.Some? ==>
              var c := AfterAsks(b, asks).window;
              c == b.window || (c.Some? && c.value >= b.window.value + NS_PER_SECOND)
    decreases |asks|
  {
    if asks != [] {
      WindowsRise(b.Asked(asks[0]), asks[1..]);
    }
  }

  class LineBudget {
    var window: Option<nat>
    var used: nat
    var suppressed: nat
    /** Lines asked for, let through, and reported as suppressed, ever. */
    ghost var asked: nat
    ghost var passed: nat
    ghost var reported: nat

    ghost predicate Valid()
      reads this
    {
      used <= LINES_PER_SECOND && asked == passed + reported + suppressed
    }

    ghost function Current(): Budget
      reads this
    {
      Budget(window, used, suppressed)
    }

    constructor ()
      ensures Valid() && Current() == UNUSED
    {
      window, used, suppressed := None, 0, 0;
      asked, passed, reported := 0, 0, 0;
    }

    /** Ask for a line: let through exactly when the second is over or fewer than
        five have passed in it, and then with the number withheld since the last.
        Every line asked for is let through, reported later as withheld, or still
        waiting to be. */
    method Take(now: nat) returns (r: Option<nat>)
      requires Valid()
      modifies this
      ensures Valid() && Current() == old(Current()).Asked(now)
      ensures r.Some? <==> old(Current()).HasRoom(now)
      ensures asked == old(asked) + 1
      ensures r.Some? ==> r.value == old(suppressed) && suppressed == 0 && passed == old(passed) + 1
      ensures r.None? ==> suppressed == old(suppressed) + 1 && passed == old(passed) && used == LINES_PER_SECOND
    {
      asked := asked + 1;
      if window.None? || now >= window.value + NS_PER_SECOND {
        window, used := Some(now), 0;
      }
      if used < LINES_PER_SECOND {
        used := used + 1;
        r := Some(suppressed);
        passed, reported, suppressed := passed + 1, reported + suppressed, 0;
      } else {
        suppressed := suppressed + 1;
        r := None;
      }
    }
  }
}
