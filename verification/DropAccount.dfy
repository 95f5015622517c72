/** Attributing dropped-frame counts to log lines: of an interval's counts, those a
    late wake accounts for, those a line explains otherwise, and those without one. */
module DropAccount {
  import opened Common

  /** A drop line's fields. A field the line does not carry compares false with
      everything, as a missing number does. */
  datatype Line = Line(
    r21: bool,
    masterFrame: nat,
    skipped: Option<real>,
    droppedTotal: Option<real>,
    wokeLateMs: Option<real>,
    lateMs: Option<real>,
    previousTickMs: Option<real>)

  predicate IsWhole(x: Option<real>) { x.Some? && x.value == x.value.Floor as real }

  predicate AtLeast(x: Option<real>, y: Option<real>) { x.Some? && y.Some? && x.value >= y.value }

  /** How many counts the line explains, ending at its total. */
  function CountOf(l: Line): Option<real> { if l.r21 then Some(1.0) else l.skipped }

  predicate Readable(l: Line) { IsWhole(CountOf(l)) && IsWhole(l.droppedTotal) }

  function First(l: Line): int
    requires Readable(l)
  {
    l.droppedTotal.value.Floor - CountOf(l).value.Floor + 1
  }

  function Last(l: Line): int
    requires Readable(l)
  {
    l.droppedTotal.value.Floor
  }

  /** Lateness on waking alone accounts for the loss: it spans what was lost, and the
      preceding tick kept to the frame's length. */
  predicate Ties(l: Line, houseRate: real)
    requires Readable(l) && houseRate > 0.0
  {
    && (if l.r21 then AtLeast(l.wokeLateMs, l.lateMs)
        else AtLeast(l.wokeLateMs, Some(CountOf(l).value * 1000.0 / houseRate)))
    && AtLeast(Some(1000.0 / houseRate), l.previousTickMs)
  }

  /** A tie, by the numbers: both fields are there; the wake was late by the line's own
      lateness, or by as long as the frames it skipped last; and the tick before took
      no longer than a frame. */
  lemma TiesByTheNumbers(l: Line, houseRate: real)
    requires Readable(l) && houseRate > 0.0
    ensures Ties(l, houseRate)
       <==> && l.wokeLateMs.Some? && l.previousTickMs.Some?
            && l.previousTickMs.value * houseRate <= 1000.0
            && (if l.r21 then l.lateMs.Some? && l.lateMs.value <= l.wokeLateMs.value
                else l.skipped.value * 1000.0 <= l.wokeLateMs.value * houseRate)
  {
    if l.wokeLateMs.Some? && !l.r21 {
      Divides(l.skipped.value * 1000.0, l.wokeLateMs.value, houseRate);
    }
    if l.previousTickMs.Some? {
      Multiplies(1000.0, l.previousTickMs.value, houseRate);
    }
  }

  lemma Divides(n: real, x: real, d: real)
    requires d > 0.0
    ensures x >= n / d <==> x * d >= n
  {
    assert n / d * d == n;
    if x >= n / d {
      assert (x - n / d) * d >= 0.0;
    } else {
      assert (n / d - x) * d > 0.0;
    }
  }

  lemma Multiplies(n: real, x: real, d: real)
    requires d > 0.0
    ensures n / d >= x <==> n >= x * d
  {
    assert n / d * d == n;
    if n / d >= x {
      assert (n / d - x) * d >= 0.0;
    } else {
      assert (x - n / d) * d > 0.0;
    }
  }

  datatype Account = Account(tied: seq<int>, untied: seq<int>, unexplained: seq<int>, lines: seq<Line>)

  ghost predicate Explains(l: Line, count: int) { Readable(l) && First(l) <= count <= Last(l) }

  /** The line that explains `count`: the last that covers it. */
  ghost function Explanation(lines: seq<Line>, count: int): Option<Line> {
    if lines == [] then None
    else if Explains(lines[|lines| - 1], count) then Some(lines[|lines| - 1])
    else Explanation(lines[..|lines| - 1], count)
  }

  /** A line covers its last `n` counts up to its total, one if it reports a late submit
      and else those it skipped, provided both are whole numbers it has. */
  lemma CoversByTheNumbers(l: Line, count: int)
    ensures Explains(l, count)
       <==> && l.droppedTotal.Some? && l.droppedTotal.value == l.droppedTotal.value.Floor as real
            && (l.r21 || (l.skipped.Some? && l.skipped.value == l.skipped.value.Floor as real))
            && l.droppedTotal.value - (if l.r21 then 1.0 else l.skipped.value) < count as real <= l.droppedTotal.value
  {
  }

  /** Of the lines that cover a count, the last explains it. */
  lemma {:induction false} LastLineExplains(lines: seq<Line>, count: int, i: nat)
    requires i < |lines| && Explains(lines[i], count) && forall j | i < j < |lines| :: !Explains(lines[j], count)
    ensures Explanation(lines, count) == Some(lines[i])
  {
    hide Explains;
    if i < |lines| - 1 {
      LastLineExplains(lines[..|lines| - 1], count, i);
    }
  }

  lemma {:induction false} UncoveredIsUnexplained(lines: seq<Line>, count: int)
    requires forall i | 0 <= i < |lines| :: !Explains(lines[i], count)
    ensures Explanation(lines, count) == None
  {
    hide Explains;
    if lines != [] {
      UncoveredIsUnexplained(lines[..|lines| - 1], count);
    }
  }

  ghost predicate Increasing(s: seq<int>) { forall i, j | 0 <= i < j < |s| :: s[i] < s[j] }

  ghost predicate Unique(s: seq<Line>) { forall i, j | 0 <= i < j < |s| :: s[i] != s[j] }

  /** Every count of `(before, upTo]` is in exactly the list its explanation puts
      it in, each list in order; and the lines are those that explain some of
      them, each once. */
  ghost predicate Accounts(a: Account, lines: seq<Line>, before: int, upTo: int, houseRate: real)
    requires houseRate > 0.0
  {
    && Increasing(a.tied) && Increasing(a.untied) && Increasing(a.unexplained) && Unique(a.lines)
    && |a.tied| + |a.untied| + |a.unexplained| == upTo - before
    && (forall c :: Placed(a, lines, before, upTo, houseRate, c))
    && (forall l :: l in a.lines <==> Used(lines, before, upTo, l))
  }

  ghost predicate Placed(a: Account, lines: seq<Line>, before: int, upTo: int, houseRate: real, c: int)
    requires houseRate > 0.0
  {
    var e := Explanation(lines, c);
    && (c in a.unexplained <==> before < c <= upTo && e.None?)
    && (c in a.tied <==> before < c <= upTo && TiedBy(e, houseRate))
    && (c in a.untied <==> before < c <= upTo && UntiedBy(e, houseRate))
  }

  ghost predicate Used(lines: seq<Line>, before: int, upTo: int, l: Line) {
    exists c | before < c <= upTo :: Explanation(lines, c) == Some(l)
  }

  lemma UsedNext(lines: seq<Line>, before: int, upTo: int)
    requires before <= upTo
    ensures forall l :: Used(lines, before, upTo + 1, l)
                        <==> Used(lines, before, upTo, l) || Explanation(lines, upTo + 1) == Some(l)
  {
  }

  ghost predicate TiedBy(e: Option<Line>, houseRate: real)
    requires houseRate > 0.0
  {
    e.Some? && Readable(e.value) && Ties(e.value, houseRate)
  }

  ghost predicate UntiedBy(e: Option<Line>, houseRate: real)
    requires houseRate > 0.0
  {
    e.Some? && Readable(e.value) && !Ties(e.value, houseRate)
  }

  /** `explains` holds each count's explanation, and whether it ties the count. */
  ghost predicate Reads(explains: map<int, Pair<Line, bool>>, lines: seq<Line>, houseRate: real)
    requires houseRate > 0.0
  {
    forall c {:trigger Explanation(lines, c)} ::
      if c in explains then
        var e := explains[c];
        Explanation(lines, c) == Some(e.fst) && Readable(e.fst) && e.snd == Ties(e.fst, houseRate)
      else Explanation(lines, c).None?
  }

  lemma ReadsAt(explains: map<int, Pair<Line, bool>>, lines: seq<Line>, houseRate: real, c: int)
    requires houseRate > 0.0 && Reads(explains, lines, houseRate)
    ensures if c in explains
            then Explanation(lines, c) == Some(explains[c].fst) && Readable(explains[c].fst)
                 && explains[c].snd == Ties(explains[c].fst, houseRate)
            else Explanation(lines, c).None?
  {
  }

  lemma NextLine(lines: seq<Line>, i: nat, c: int)
    requires i < |lines|
    ensures Explanation(lines[..i + 1], c) == if Explains(lines[i], c) then Some(lines[i]) else Explanation(lines[..i], c)
  {
    assert lines[..i + 1][..i] == lines[..i];
  }

  /** One line's counts, entered over whatever explained them before. */
  method Enter(explains: map<int, Pair<Line, bool>>, l: Line, tied: bool) returns (next: map<int, Pair<Line, bool>>)
    requires Readable(l)
    ensures forall c :: c in next <==> c in explains || Explains(l, c)
    ensures forall c | c in next :: next[c] == if Explains(l, c) then Pair(l, tied) else explains[c]
  {
    next := explains;
    var count := First(l);
    while count <= Last(l)
      invariant First(l) <= count && (count <= Last(l) + 1 || count == First(l))
      invariant forall c :: c in next <==> c in explains || First(l) <= c < count
      invariant forall c | c in next :: next[c] == if First(l) <= c < count then Pair(l, tied) else explains[c]
      decreases Last(l) - count
    {
      next := next[count := Pair(l, tied)];
      count := count + 1;
    }
  }

  method ReadLines(lines: seq<Line>, houseRate: real) returns (explains: map<int, Pair<Line, bool>>)
    requires houseRate > 0.0
    ensures Reads(explains, lines, houseRate)
  {
    explains := map[];
    for i := 0 to |lines|
      invariant Reads(explains, lines[..i], houseRate)
    {
      var l := lines[i];
      ghost var was := explains;
      if Readable(l) {
        explains := Enter(explains, l, Ties(l, houseRate));
      }
      forall c
        ensures Explanation(lines[..i + 1], c) == if Explains(l, c) then Some(l) else Explanation(lines[..i], c)
      {
        NextLine(lines, i, c);
      }
    }
    assert lines[..|lines|] == lines;
  }

  lemma CountedBelow(a: Account, lines: seq<Line>, before: int, upTo: int, houseRate: real)
    requires houseRate > 0.0 && Accounts(a, lines, before, upTo, houseRate)
    ensures forall i | 0 <= i < |a.tied| :: a.tied[i] <= upTo
    ensures forall i | 0 <= i < |a.untied| :: a.untied[i] <= upTo
    ensures forall i | 0 <= i < |a.unexplained| :: a.unexplained[i] <= upTo
  {
    forall c | c in a.tied || c in a.untied || c in a.unexplained
      ensures c <= upTo
    {
      assert Placed(a, lines, before, upTo, houseRate, c);
    }
    assert forall i | 0 <= i < |a.tied| :: a.tied[i] in a.tied;
    assert forall i | 0 <= i < |a.untied| :: a.untied[i] in a.untied;
    assert forall i | 0 <= i < |a.unexplained| :: a.unexplained[i] in a.unexplained;
  }

  /** The account with one more count, placed by what explains it. */
  function Place(a: Account, count: int, e: Option<Pair<Line, bool>>): Account {
    match e
    case None => a.(unexplained := a.unexplained + [count])
    case Some(Pair(l, tied)) =>
      var b := if tied then a.(tied := a.tied + [count]) else a.(untied := a.untied + [count]);
      if l in b.lines then b else b.(lines := b.lines + [l])
  }

  lemma PlaceAccounts(a: Account, lines: seq<Line>, before: int, count: int, houseRate: real, e: Option<Pair<Line, bool>>)
    requires houseRate > 0.0 && before < count && Accounts(a, lines, before, count - 1, houseRate)
    requires match e
             case None => Explanation(lines, count).None?
             case Some(Pair(l, tied)) => Explanation(lines, count) == Some(l) && Readable(l) && tied == Ties(l, houseRate)
    ensures Accounts(Place(a, count, e), lines, before, count, houseRate)
  {
    hide Ties, Readable, Explanation, Used;
    var b := Place(a, count, e);
    CountedBelow(a, lines, before, count - 1, houseRate);
    forall c
      ensures Placed(b, lines, before, count, houseRate, c)
    {
      assert Placed(a, lines, before, count - 1, houseRate, c);
    }
    UsedNext(lines, before, count - 1);
  }

  method AccountDrops(lines: seq<Line>, before: int, after: int, houseRate: real) returns (account: Account)
    requires houseRate > 0.0
    ensures Accounts(account, lines, before, if after < before then before else after, houseRate)
  {
    hide Accounts;
    var explains := ReadLines(lines, houseRate);
    account := Account([], [], [], []);
    NothingYet(lines, before, houseRate);
    var count := before + 1;
    while count <= after
      invariant before < count && (count <= after + 1 || count == before + 1)
      invariant Accounts(account, lines, before, count - 1, houseRate)
      decreases after - count
    {
      var e := if count in explains then Some(explains[count]) else None;
      ReadsAt(explains, lines, houseRate, count);
      PlaceAccounts(account, lines, before, count, houseRate, e);
      account := Place(account, count, e);
      count := count + 1;
    }
  }

  lemma NothingYet(lines: seq<Line>, before: int, houseRate: real)
    requires houseRate > 0.0
    ensures Accounts(Account([], [], [], []), lines, before, before, houseRate)
  {
  }
}
