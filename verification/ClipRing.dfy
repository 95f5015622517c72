/** The streaming part of a clip: slots indexed modulo their number, filled in order
    by a decoder while their lower edge follows the clock, and the frame shown. */
module ClipWindow {
  import opened Common
  import opened IntFacts
  import opened ReadingAhead

  function Min(a: nat, b: nat): nat { if b < a then b else a }

  /** What is resident: the head always, and what the slots carry. The window proper
      starts at `base`. */
  datatype Window = Window(head: nat, length: nat, base: nat, slots: seq<Option<nat>>) {

    /** Slot `s` holds only frames `j >= head` with `(j - head) mod W == s`. */
    ghost predicate Valid() {
      && (|slots| > 0 ==> head + |slots| <= length && head <= base < length)
      && (forall s | 0 <= s < |slots| && slots[s].Some? ::
            head <= slots[s].value < length && Slot(slots[s].value) == s)
    }

    function Slot(j: nat): (s: nat)
      requires head <= j && |slots| > 0
      ensures s < |slots|
    {
      (j - head) % |slots|
    }

    predicate Resident(j: nat) {
      j < head || (|slots| > 0 && slots[Slot(j)] == Some(j))
    }

    /** The window's upper edge: its length past the base, or the clip's end. */
    function End(): nat { Min(base + |slots|, length) }

    function MissingFrom(j: nat): (m: Option<nat>)
      ensures m.Some? ==> j <= m.value < End() && !Resident(m.value)
      ensures forall k | j <= k < End() && (m.Some? ==> k < m.value) :: Resident(k)
      decreases End() - j
    {
      if j >= End() then None else if !Resident(j) then Some(j) else MissingFrom(j + 1)
    }

    /** The lowest gap between the window's edges. */
    function FirstMissing(): Option<nat> { MissingFrom(base) }

    ghost function MissingCount(j: nat): nat
      decreases End() - j
    {
      if j >= End() then 0 else (if Resident(j) then 0 else 1) + MissingCount(j + 1)
    }

    /** The number of gaps between the window's edges. */
    ghost function Missing(): nat { MissingCount(base) }

    /** Everything the window must hold below `pos` is resident: a decoder that
        stands at `pos` has not passed the first missing frame. */
    ghost predicate FilledTo(pos: nat) {
      forall k | base <= k < End() && k < pos :: Resident(k)
    }

    /** A decoder at `pos` has filled the window to there and nothing is past it. */
    ghost predicate FilledJustTo(pos: nat) {
      && FilledTo(pos) && pos <= End()
      && forall s | 0 <= s < |slots| && slots[s].Some? :: slots[s].value < pos
    }

    /** Nothing is past the first gap. */
    ghost predicate Tidy() { exists pos: nat :: FilledJustTo(pos) }

    /** The highest frame below `i` in the first `n` slots. */
    function HighestBelow(i: nat, n: nat): (r: Option<nat>)
      requires n <= |slots|
      ensures r.Some? ==> r.value < i && r in slots
      ensures forall s | 0 <= s < n && slots[s].Some? && slots[s].value < i ::
                r.Some? && slots[s].value <= r.value
    {
      if n == 0 then None
      else
        var best, f := HighestBelow(i, n - 1), slots[n - 1];
        if f.Some? && f.value < i && (best.None? || best.value < f.value) then f else best
    }

    /** The stand-in for a missing frame `i`: `last`, if that is still here and earlier
        than `i`; or else the latest earlier frame of the slots; or else the head's
        final frame. */
    function HoldFor(last: Option<nat>, i: nat): nat {
      if last.Some? && last.value < i && Resident(last.value) then last.value
      else
        var h := HighestBelow(i, |slots|);
        if h.Some? then h.value else if head == 0 then 0 else head - 1
    }

    function Upload(j: nat): Window
      requires head <= j && |slots| > 0
    {
      this.(slots := slots[Slot(j) := Some(j)])
    }
  }

  /** Uploading the first missing frame evicts nothing the window must hold. If
      it evicts anything at all, the frame at the base is resident. */
  lemma UploadEvictsNothingNeeded(w: Window, j: nat)
    requires w.Valid() && w.FirstMissing() == Some(j)
    ensures w.Upload(j).Valid() && w.Upload(j).FilledTo(j + 1)
    ensures forall k | w.base <= k < w.End() && w.Resident(k) :: w.Upload(j).Resident(k)
    ensures forall k: nat | w.Resident(k) && !w.Upload(j).Resident(k) ::
              !(w.base <= k < w.End()) && w.Upload(j).Resident(w.base)
  {
    var v := w.Upload(j);
    forall k: nat | w.Resident(k) && !v.Resident(k)
      ensures !(w.base <= k < w.End())
    {
      if k < j {
        SameRemainder(k - w.head, j - w.head, |w.slots|);
      } else {
        SameRemainder(j - w.head, k - w.head, |w.slots|);
      }
    }
  }

  lemma {:induction false} UploadCounts(w: Window, j: nat, from: nat)
    requires w.Valid() && w.FirstMissing() == Some(j) && w.base <= from
    ensures w.MissingCount(from) == w.Upload(j).MissingCount(from) + (if from <= j then 1 else 0)
    decreases w.End() - from
  {
    UploadEvictsNothingNeeded(w, j);
    if from < w.End() {
      UploadCounts(w, j, from + 1);
    }
  }

  /** Inside the window no two frames share a slot: an upload there makes its frame
      resident and changes no other. */
  lemma UploadInWindow(w: Window, j: nat)
    requires w.Valid() && |w.slots| > 0 && w.base <= j < w.End()
    ensures w.Upload(j).Valid()
    ensures forall k | w.base <= k < w.End() :: w.Upload(j).Resident(k) <==> w.Resident(k) || k == j
  {
    forall k | w.base <= k < w.End() && w.Slot(k) == w.Slot(j)
      ensures k == j
    {
      if k < j {
        SameRemainder(k - w.head, j - w.head, |w.slots|);
      } else if j < k {
        SameRemainder(j - w.head, k - w.head, |w.slots|);
      }
    }
  }

  lemma {:induction false} NoneMissing(w: Window, from: nat)
    requires w.base <= from
    ensures w.MissingFrom(from).None? <==> w.MissingCount(from) == 0
    decreases w.End() - from
  {
    if from < w.End() {
      NoneMissing(w, from + 1);
    }
  }

  lemma NothingMissing(w: Window)
    ensures w.FirstMissing().None? <==> w.Missing() == 0
  {
    NoneMissing(w, w.base);
  }

  /** Nothing the window must hold has left it between `w` and `v`; and if anything
      has, the frame at the base is there. */
  ghost predicate KeptFrom(w: Window, v: Window) {
    && (forall k | v.base <= k < v.End() && w.Resident(k) :: v.Resident(k))
    && (forall k: nat | w.Resident(k) :: v.Resident(k) || v.Resident(v.base))
  }

  lemma MovedIsValid(w: Window, base: nat)
    requires w.Valid() && w.head <= base < w.length
    ensures w.(base := base).Valid()
  {
    assert forall j: nat | w.head <= j && |w.slots| > 0 :: w.(base := base).Slot(j) == w.Slot(j);
  }

  lemma KeptMoved(w: Window, base: nat)
    ensures KeptFrom(w, w.(base := base))
  {
    assert forall k: nat :: w.(base := base).Resident(k) == w.Resident(k);
  }

  lemma KeptByUpload(w: Window, v: Window, j: nat)
    requires v.Valid() && v.FirstMissing() == Some(j) && KeptFrom(w, v)
    ensures KeptFrom(w, v.Upload(j))
  {
    UploadEvictsNothingNeeded(v, j);
  }

  /** From `missing` frames missing and the decoder at `pos`, to `left` and `at`: fewer
      missing, or as many and the decoder further on. */
  predicate Nearer(missing: nat, pos: nat, left: nat, at: nat) {
    left < missing || (left == missing && at > pos)
  }

  predicate NoFurther(missing: nat, pos: nat, left: nat, at: nat) {
    left <= missing && at >= pos
  }

  /** A window is filled to its first gap, and to nowhere past it; with none, to anywhere. */
  lemma GapIsFirst(w: Window, at: nat)
    ensures match w.FirstMissing()
            case None => w.FilledTo(at)
            case Some(m) => w.FilledTo(at) <==> at <= m
    ensures w.FirstMissing().Some? ==> w.FilledTo(w.FirstMissing().value)
  {
  }

  /** Of a window filled just to `at`, and of all past it, the frames here are those
      below `at`. */
  lemma HereBelow(w: Window, at: nat, k: nat)
    requires w.Valid() && |w.slots| > 0 && w.FilledJustTo(at) && w.base <= k
    ensures w.Resident(k) <==> k < at
  {
  }

  lemma MovedKeepsResidence(w: Window, base: nat, k: nat)
    ensures w.(base := base).Resident(k) == w.Resident(k)
  {
  }

  /** The first gap of a window filled just to the decoder is, as the window moves on,
      wherever the later of the two stands. */
  lemma GapFollowsClock(w: Window, base: nat, at: nat, now: nat)
    requires w.Valid() && |w.slots| > 0 && w.FilledJustTo(at) && w.base <= base < w.length
    requires now == at || (at < base && now == at + 1)
    ensures var v := w.(base := base);
            && v.FilledJustTo(now)
            && (v.FirstMissing().Some? ==> v.FirstMissing().value == if base < now then now else base)
  {
    hide Window.Resident;
    var v := w.(base := base);
    forall k: nat | base <= k
      ensures v.Resident(k) <==> k < at
    {
      HereBelow(w, at, k);
      MovedKeepsResidence(w, base, k);
    }
    var first: nat := if base < now then now else base;
    assert !v.Resident(first);
  }

  lemma TidyMoves(w: Window, base: nat)
    requires w.Valid() && |w.slots| > 0 && w.Tidy() && w.base <= base < w.length
    ensures w.(base := base).Tidy()
  {
    var pos: nat :| w.FilledJustTo(pos);
    GapFollowsClock(w, base, pos, pos);
  }

  /** A decoder started at the first gap of a tidy window is in step with it. */
  lemma TidyStarts(w: Window, m: nat)
    requires w.Tidy() && w.FirstMissing() == Some(m)
    ensures w.FilledJustTo(m)
  {
    var pos: nat :| w.FilledJustTo(pos);
    GapIsFirst(w, pos);
  }

  /** Taking the frame the decoder stands at keeps the window filled just to it. */
  lemma StepsOn(w: Window, j: nat)
    requires w.Valid() && |w.slots| > 0 && w.FilledJustTo(j)
    ensures j < w.base || w.Resident(j) ==> w.FilledJustTo(j + 1)
    ensures w.FirstMissing() == Some(j) ==> w.Upload(j).FilledJustTo(j + 1)
  {
    if j >= w.base {
      HereBelow(w, j, j);
    }
    if w.FirstMissing() == Some(j) {
      UploadEvictsNothingNeeded(w, j);
    }
  }

  /** What one View frame of a clip meets: the frame due, the uploads it may spend, and
      how many of them find a staging buffer. */
  datatype ViewFrame = ViewFrame(due: nat, budget: nat, staging: nat)

  class ClipRing {
    const head: nat
    const length: nat
    /** Slot by slot, the frame whose pixels it carries. */
    const slotFrame: array<Option<nat>>
    var base: nat
    var worker: ReadAhead?
    /** A frame taken from the worker with nowhere to go yet. */
    var pending: Option<nat>
    /** What `Draw` showed most recently. */
    var lastPresented: Option<nat>
    /** Where the window had its first gap when a worker was let go. */
    var stalledAt: Option<nat>
    var misses: nat
    /** Where each worker was started, in turn. */
    ghost var started: seq<nat>

    ghost predicate Valid()
      reads this, slotFrame, worker
    {
      && View().Valid()
      && (worker != null ==> worker.Valid() && worker.end == length)
      && (pending.Some? ==> worker != null && worker.next == pending.value + 1)
    }

    function View(): Window
      reads this`base, slotFrame
    {
      Window(head, length, base, slotFrame[..])
    }

    /** Where the decoder stands: at the frame it kept, or else at its worker's next. */
    function Position(): nat
      requires worker != null
      reads this`pending, this`worker, worker
    {
      if pending.Some? then pending.value else worker.next
    }

    /** Where the decoder stands: past every frame, once it has been let go. */
    function Stand(): nat
      reads this`pending, this`worker, worker
    {
      if worker == null then length else Position()
    }

    /** Where the decoder stands once the window's base is `b`: a kept frame below it is
        forgotten. */
    function StandsAt(b: nat): nat
      requires worker != null
      reads this`pending, this`worker, worker
    {
      if pending.Some? && pending.value >= b then pending.value else worker.next
    }

    /** The decoder has filled the window just as far as it has come. */
    ghost predicate InStep()
      reads this`base, this`pending, this`worker, slotFrame, worker
    {
      worker != null ==> View().FilledJustTo(Position())
    }

    /** The frame shown last is still there to hold (frame 0 stands for a clip
        with no head that has shown nothing resident). */
    ghost predicate Holding()
      reads this`base, this`lastPresented, slotFrame
    {
      lastPresented.Some? ==> lastPresented.value == 0 || View().Resident(lastPresented.value)
    }

    constructor (head: nat, length: nat, windowFrames: nat)
      ensures Valid() && fresh(slotFrame) && this.head == head && this.length == length
      ensures slotFrame.Length == Min(if length < head then 0 else length - head, windowFrames)
      ensures forall s | 0 <= s < slotFrame.Length :: slotFrame[s] == None
      ensures worker == null && pending.None? && lastPresented.None? && stalledAt.None? && base == head && misses == 0
      ensures started == [] && (slotFrame.Length > 0 ==> View().Tidy())
    {
      this.head, this.length, base := head, length, head;
      slotFrame := new Option<nat>[Min(if length < head then 0 else length - head, windowFrames)](_ => None);
      worker, pending, lastPresented, stalledAt, misses, started := null, None, None, None, 0, [];
      new;
      assert slotFrame.Length > 0 ==> View().FilledJustTo(head);
    }

    /** Upload what was decoded while the clip loaded: of the window's frames exactly
        those become resident. */
    method Prime(frames: seq<nat>)
      requires Valid() && worker == null && base == head
      modifies slotFrame
      ensures Valid()
      ensures forall j | head <= j < View().End() :: View().Resident(j) <==> old(View()).Resident(j) || j in frames
    {
      hide Window.Resident, Window.Valid;
      for i := 0 to |frames|
        invariant Valid()
        invariant forall j | head <= j < View().End() ::
                    View().Resident(j) <==> old(View()).Resident(j) || j in frames[..i]
      {
        var j := frames[i];
        assert frames[..i + 1] == frames[..i] + [j];
        if head <= j < View().End() {
          PrimeOne(j);
        }
      }
      assert frames[..|frames|] == frames;
    }

    method PrimeOne(j: nat)
      requires Valid() && worker == null && base == head && head <= j < View().End()
      modifies slotFrame
      ensures Valid() && View() == old(View()).Upload(j)
      ensures forall k | head <= k < View().End() :: View().Resident(k) <==> old(View()).Resident(k) || k == j
    {
      UploadInWindow(View(), j);
      slotFrame[View().Slot(j)] := Some(j);
    }

    /** Take one delivered frame: skip it, put it in its slot, or keep it for a later
        turn (past the window, or no staging buffer). The frame is where the decoder
        stood, so an upload is always of the first missing frame and leaves one fewer;
        and while a frame is missing, one that is staged is never kept. */
    method Receive(j: nat, staged: bool) returns (uploaded: bool)
      requires Valid() && slotFrame.Length > 0 && j < length
      requires worker != null && pending.None? && worker.next == j + 1 && View().FilledTo(j)
      modifies slotFrame, this`pending
      ensures Valid() && View().FilledTo(Position())
      ensures pending == None || (pending == Some(j) && (!staged || j >= View().End()))
      ensures uploaded ==> staged && pending.None? && old(View()).FirstMissing() == Some(j) && View() == old(View()).Upload(j)
      ensures uploaded ==> View().Missing() == old(View().Missing()) - 1
      ensures !uploaded ==> View() == old(View()) && (pending.None? ==> j < base || View().Resident(j))
      ensures staged && old(View()).FirstMissing().Some? ==> pending.None?
    {
      uploaded := false;
      if j < base || View().Resident(j) {
        return;
      }
      if j >= View().End() || !staged {
        pending := Some(j);
        return;
      }
      assert View().FirstMissing() == Some(j);
      UploadEvictsNothingNeeded(View(), j);
      UploadCounts(View(), j, base);
      slotFrame[View().Slot(j)] := Some(j);
      uploaded := true;
    }

    function BaseFor(wanted: Option<nat>): nat {
      if wanted.Some? && wanted.value > head then wanted.value else head
    }

    /** Set the lower edge to the frame being drawn, or to the head's end. A frame kept
        from below it is forgotten. */
    method MoveBase(wanted: Option<nat>)
      requires Valid() && slotFrame.Length > 0 && (wanted.Some? ==> wanted.value < length)
      modifies this`base, this`pending
      ensures Valid() && slotFrame[..] == old(slotFrame[..]) && base == BaseFor(wanted)
      ensures pending == if old(pending).Some? && old(pending).value < base then None else old(pending)
      ensures old(worker != null && InStep()) && old(base) <= base ==>
                InStep() && (View().FirstMissing().Some? ==>
                               View().FirstMissing().value == if base < Position() then Position() else base)
      ensures base == old(base) && old(worker != null && View().FilledTo(Position())) ==> View().FilledTo(Position())
      ensures old(View().Tidy()) && old(base) <= base ==> View().Tidy()
    {
      assert View().head <= BaseFor(wanted) < View().length;
      hide Window.Valid, Window.Tidy, Window.FilledJustTo, Window.MissingFrom, Window.Resident;
      MovedIsValid(View(), BaseFor(wanted));
      if View().Tidy() && base <= BaseFor(wanted) {
        TidyMoves(View(), BaseFor(wanted));
      }
      if worker != null && InStep() && base <= BaseFor(wanted) {
        GapFollowsClock(View(), BaseFor(wanted), Position(), StandsAt(BaseFor(wanted)));
      }
      base := if wanted.Some? && wanted.value > head then wanted.value else head;
      if pending.Some? && pending.value < base {
        pending := None;
      }
    }

    /** Start a worker at the first missing frame `m`, if there is one: where there is
        no worker, unless the last was let go leaving `m`; and in place of one that is
        past `m` or more than a window short of it, but of no other. */
    method Reposition()
      requires Valid() && slotFrame.Length > 0
      modifies this`pending, this`stalledAt, this`worker, this`started
      ensures Valid() && (worker != null ==> View().FilledTo(Position()))
      ensures started == old(started) ==> worker == old(worker) && pending == old(pending) && stalledAt == old(stalledAt)
      ensures started != old(started) ==>
                && View().FirstMissing().Some? && started == old(started) + [View().FirstMissing().value]
                && worker != null && fresh(worker) && worker.Sound()
                && worker.start == worker.next == View().FirstMissing().value
                && pending.None? && stalledAt.None?
      ensures old(worker != null && View().FilledTo(Position())) ==> worker != null && Position() >= old(Position())
      ensures started != old(started) && View().Tidy() ==> InStep()
      ensures View().FirstMissing().None? ==> started == old(started)
      ensures View().FirstMissing().Some? && old(worker) != null ==>
                var m, at := View().FirstMissing().value, old(Position());
                started == old(started) <==> at <= m <= at + slotFrame.Length
      ensures View().FirstMissing().Some? && old(worker) == null ==>
                (started == old(started) <==> old(stalledAt) == View().FirstMissing())
    {
      var m := View().FirstMissing();
      GapIsFirst(View(), if worker == null then 0 else Position());
      if m.Some? && View().Tidy() {
        TidyStarts(View(), m.value);
      }
      hide Window.MissingFrom, Window.FilledTo, Window.FilledJustTo, Window.Tidy, Window.Resident, Window.Valid;
      if m.Some? {
        var restart;
        if worker == null {
          restart := stalledAt != m;
        } else {
          restart := Position() > m.value || m.value > Position() + slotFrame.Length;
        }
        if restart {
          pending := None;
          stalledAt := None;
          worker := new ReadAhead(m.value, length);
          started := started + [m.value];
        }
      }
    }

    /** A frame is at hand: kept from before, or in the worker's channel. */
    predicate AtHand()
      reads this`pending, this`worker, worker
    {
      worker != null && (pending.Some? || worker.channel != [])
    }

    /** The next frame: the one kept, or what the worker, run at any pace, has queued.
        A worker with nothing more to give is let go, with the frame it left missing;
        one that never failed leaves none. */
    method Next(mayStop: bool) returns (j: Option<nat>)
      requires Valid() && slotFrame.Length > 0
      modifies this`pending, this`stalledAt, this`worker, worker
      ensures Valid() && pending.None? && (worker == old(worker) || worker == null)
      ensures j.Some? ==>
                old(worker) != null && worker == old(worker)
                && j.value == old(Position()) < length && worker.next == j.value + 1
      ensures worker != null && j.None? ==> Position() == old(Position())
      ensures worker == old(worker) ==> stalledAt == old(stalledAt)
      ensures worker == null && old(worker) != null ==>
                j.None? && stalledAt == View().FirstMissing() && old(worker).exited && old(worker).channel == []
      ensures old(AtHand()) ==> j.Some?
      ensures worker != null ==> worker.index >= old(worker.index)
      ensures old(worker) != null && old(worker.Sound()) && !mayStop ==>
                old(worker).Sound() && (worker == null ==> old(Position()) == length)
    {
      if pending.Some? {
        j := pending;
        pending := None;
      } else if worker == null {
        j := None;
      } else {
        worker.RunWorker(mayStop);
        var d := worker.Poll();
        if d.Done? {
          worker := null;
          stalledAt := View().FirstMissing();
        }
        j := if d.Frame? then Some(d.index) else None;
      }
    }

    /** Take the next frame if there is one, and receive it. */
    method TakeOne(staged: bool, mayStop: bool) returns (got: bool, uploaded: bool)
      requires Valid() && slotFrame.Length > 0
      requires worker != null ==> View().FilledTo(Position())
      modifies this`pending, this`stalledAt, this`worker, slotFrame, worker
      ensures Valid() && (worker == old(worker) || worker == null) && (got ==> worker != null)
      ensures worker != null ==> View().FilledTo(Position()) && worker.index >= old(worker.index)
      ensures uploaded ==> got && old(View().FirstMissing().Some?)
                           && View() == old(View()).Upload(old(View()).FirstMissing().value)
      ensures !uploaded ==> View() == old(View())
      ensures worker == old(worker) ==> stalledAt == old(stalledAt)
      ensures old(worker) != null && worker == null ==> stalledAt == View().FirstMissing()
      ensures NoFurther(old(View().Missing()), old(Stand()), View().Missing(), Stand())
      ensures old(AtHand()) ==> got
      ensures got && staged && old(View()).FirstMissing().Some? ==> Nearer(old(View().Missing()), old(Stand()), View().Missing(), Stand())
      ensures got && pending.None? ==> Stand() > old(Stand())
      ensures Stand() <= length
      ensures old(worker) != null && old(worker.Sound()) && !mayStop ==>
                old(worker).Sound() && (worker == null ==> View().FirstMissing().None?)
      ensures old(InStep()) ==> InStep()
    {
      hide Window.Missing, Window.FilledJustTo;
      var j := Next(mayStop);
      if j.None? {
        return false, false;
      }
      if View().FilledJustTo(j.value) {
        StepsOn(View(), j.value);
      }
      got := true;
      hide Window.Resident, Window.MissingFrom, Window.FilledTo, Window.Valid, Window.Upload;
      uploaded := Receive(j.value, staged);
    }

    /** Refill the window without blocking, spending at most `budget` uploads, of which
        `staging` find a buffer before one does not. A frame at hand while one is missing
        brings the window nearer full. */
    method Refill(budget: nat, staging: nat, mayStop: bool, ghost w: Window) returns (uploaded: nat)
      requires Valid() && slotFrame.Length > 0 && KeptFrom(w, View())
      requires worker != null ==> View().FilledTo(Position())
      modifies this`pending, this`stalledAt, this`worker, slotFrame, worker
      ensures Valid() && (worker == old(worker) || worker == null)
      ensures worker != null ==> View().FilledTo(Position()) && worker.index >= old(worker.index)
      ensures KeptFrom(w, View()) && uploaded <= budget && (old(worker) == null ==> View() == old(View()))
      ensures worker == old(worker) ==> stalledAt == old(stalledAt)
      ensures old(worker) != null && worker == null ==> stalledAt == View().FirstMissing()
      ensures NoFurther(old(View().Missing()), old(Stand()), View().Missing(), Stand())
      ensures old(AtHand() && View().FirstMissing().Some?) && budget > 0 && staging > 0 ==>
                Nearer(old(View().Missing()), old(Stand()), View().Missing(), Stand())
      ensures old(worker) != null && old(worker.Sound()) && !mayStop ==>
                old(worker).Sound() && (worker == null ==> View().FirstMissing().None?)
      ensures old(InStep()) ==> InStep()
    {
      hide Window.Missing, Window.MissingFrom, Window.Valid, Window.FilledJustTo, KeptFrom, AtHand;
      ghost var moves := AtHand() && View().FirstMissing().Some? && staging > 0;
      uploaded := 0;
      ghost var first := true;
      while uploaded < budget
        invariant Valid() && uploaded <= budget && worker == old(worker) && stalledAt == old(stalledAt)
        invariant if worker == null then View() == old(View())
                  else View().FilledTo(Position()) && worker.index >= old(worker.index)
        invariant worker != null && old(worker.Sound()) && !mayStop ==> worker.Sound()
        invariant KeptFrom(w, View()) && (old(InStep()) ==> InStep())
        invariant NoFurther(old(View().Missing()), old(Stand()), View().Missing(), Stand())
        invariant first ==> uploaded == 0 && View() == old(View()) && AtHand() == old(AtHand())
        invariant !first && moves ==> Nearer(old(View().Missing()), old(Stand()), View().Missing(), Stand())
        decreases length - Stand()
      {
        ghost var v := View();
        var got, up := TakeOne(uploaded < staging, mayStop);
        if up {
          KeptByUpload(w, v, v.FirstMissing().value);
          uploaded := uploaded + 1;
        }
        first := false;
        if !got || pending.Some? {
          break;
        }
      }
    }

    /** Move the window and start a worker if one is due. A worker that had not passed
        the first missing frame, of a window that has not moved, stands where it did or
        further on; and one in step with the window stays so as the window moves on, and
        is kept, unless left more than a window behind. */
    method Aim(wanted: Option<nat>)
      requires Valid() && slotFrame.Length > 0 && (wanted.Some? ==> wanted.value < length)
      modifies this`base, this`pending, this`stalledAt, this`worker, this`started
      ensures Valid() && View() == old(View()).(base := BaseFor(wanted))
      ensures worker == null ==> old(worker) == null && stalledAt == old(stalledAt)
      ensures worker != null ==> View().FilledTo(Position())
      ensures View().FirstMissing().Some? && worker == null ==> stalledAt == View().FirstMissing()
      ensures old(worker != null ==> worker.Sound()) && worker != null ==> worker.Sound()
      ensures base == old(base) && old(worker != null && View().FilledTo(Position())) ==>
                worker != null
                && (Position() > old(Position())
                    || (worker == old(worker) && Position() == old(Position()) && AtHand() == old(AtHand())))
      ensures if started == old(started) then worker == old(worker)
              else worker != null && fresh(worker) && View().FirstMissing() == Some(worker.start)
                   && started == old(started) + [worker.start]
      ensures View().FirstMissing().None? ==> started == old(started)
      ensures View().FirstMissing().Some? && old(worker) != null ==>
                var m, at := View().FirstMissing().value, old(StandsAt(BaseFor(wanted)));
                started == old(started) <==> at <= m <= at + slotFrame.Length
      ensures View().FirstMissing().Some? && old(worker) == null ==>
                (started == old(started) <==> old(stalledAt) == View().FirstMissing())
      ensures old(worker != null && InStep()) && old(base) <= base <= old(StandsAt(BaseFor(wanted))) + slotFrame.Length ==>
                started == old(started) && InStep()
      ensures started != old(started) && old(View().Tidy()) && old(base) <= base ==> InStep()
    {
      hide Window.MissingFrom, Window.Tidy, Window.FilledJustTo, Window.FilledTo, Window.Valid, Window.Resident;
      MoveBase(wanted);
      Reposition();
    }

    /** A frame's worth of upkeep: set the lower edge, start a worker if one is due, and
        refill. */
    method Pump(wanted: Option<nat>, budget: nat, staging: nat, mayStop: bool) returns (uploaded: nat)
      requires Valid() && (wanted.Some? ==> wanted.value < length)
      modifies this`base, this`pending, this`stalledAt, this`worker, this`started, slotFrame, worker
      ensures Valid() && (worker == null || worker == old(worker) || fresh(worker)) && uploaded <= budget
      ensures slotFrame.Length == 0 ==> base == old(base) && worker == old(worker) && started == old(started)
      ensures slotFrame.Length > 0 ==> base == BaseFor(wanted)
      ensures KeptFrom(old(View()), View())
      // While the window lacks a frame a worker is at it, or one stalled there.
      ensures slotFrame.Length > 0 && View().FirstMissing().Some? ==>
                if worker != null then View().FilledTo(Position()) else stalledAt == View().FirstMissing()
      // Which worker: of a window whose first gap, once it has moved, is at `m`, one
      // standing at `at` runs on if `at <= m <= at + W`; otherwise one starts at `m`.
      ensures if started == old(started) then worker == old(worker) || worker == null
              else worker != null ==> fresh(worker)
      ensures slotFrame.Length > 0 ==>
                var m := old(View()).(base := BaseFor(wanted)).FirstMissing();
                if m.None? then started == old(started)
                else if old(worker) == null then
                  started == if old(stalledAt) == m then old(started) else old(started) + [m.value]
                else
                  var at := old(StandsAt(BaseFor(wanted)));
                  started == if at <= m.value <= at + slotFrame.Length then old(started) else old(started) + [m.value]
      ensures slotFrame.Length > 0 && worker != null && worker != old(worker) ==>
                old(View()).(base := BaseFor(wanted)).FirstMissing() == Some(worker.start)
      // One in step with a window that moves on runs on while within a window of it.
      ensures old(worker != null && InStep())
              && (slotFrame.Length == 0
                  || old(base) <= base <= old(StandsAt(BaseFor(wanted))) + slotFrame.Length) ==>
                started == old(started) && InStep()
      // One started for a window with nothing past its first gap is in step with it.
      ensures started != old(started) && old(View().Tidy()) && old(base) <= base ==> InStep()
      // With the base where it was and a worker that had not passed the first missing
      // frame, the window is no further from full, and nearer if a frame was at hand.
      ensures slotFrame.Length > 0 && base == old(base) && old(worker != null && View().FilledTo(Position())) ==>
                && NoFurther(old(View().Missing()), old(Stand()), View().Missing(), Stand())
                && (worker != null && Stand() == old(Stand()) ==>
                      worker == old(worker) && worker.index >= old(worker.index))
                && (old(AtHand() && View().FirstMissing().Some?) && budget > 0 && staging > 0 ==>
                      Nearer(old(View().Missing()), old(Stand()), View().Missing(), Stand()))
      // A decoder that never fails is let go only over a full window.
      ensures !mayStop && old(worker != null ==> worker.Sound()) && slotFrame.Length > 0 ==>
                && (worker != null ==> worker.Sound())
                && (worker == null && View().FirstMissing().Some? ==> old(worker) == null && stalledAt == old(stalledAt))
    {
      if slotFrame.Length == 0 {
        return 0;
      }
      hide Window.Missing, Window.MissingFrom, Window.Valid, Window.Tidy, Window.FilledJustTo, KeptFrom, AtHand;
      ghost var w := View();
      KeptMoved(w, BaseFor(wanted));
      Aim(wanted);
      uploaded := Refill(budget, staging, mayStop, w);
    }

    ghost function Behind(): nat
      requires Valid()
      reads this, slotFrame, worker
    {
      length - Stand()
    }

    ghost function Undecoded(): nat
      requires Valid()
      reads this, slotFrame, worker
    {
      if worker == null || worker.index > length then 0 else length - worker.index
    }

    /** One turn of filling: the worker, with nothing at hand, decodes one frame more,
        and the window is pumped. Fewer frames are missing; or the decoder is further
        on; or it has fewer to decode. */
    method FillTurn(wanted: Option<nat>, budget: nat, staging: nat)
      requires Valid() && slotFrame.Length > 0 && (wanted.Some? ==> wanted.value < length) && base == BaseFor(wanted)
      requires worker != null && worker.Sound() && View().FilledTo(Position()) && View().FirstMissing().Some?
      requires budget > 0 && staging > 0
      modifies this`base, this`pending, this`stalledAt, this`worker, this`started, slotFrame, worker
      ensures Valid() && base == BaseFor(wanted) && (worker == null || worker == old(worker) || fresh(worker))
      ensures worker != null ==> worker.Sound()
      ensures View().FirstMissing().Some? ==> worker != null && View().FilledTo(Position())
      ensures || View().Missing() < old(View().Missing())
              || (View().Missing() == old(View().Missing())
                  && (Behind() < old(Behind()) || (Behind() == old(Behind()) && Undecoded() < old(Undecoded()))))
    {
      hide Window.Missing;
      if pending.None? && worker.channel == [] {
        worker.Step(false);
      }
      var _ := Pump(wanted, budget, staging, false);
      NothingMissing(View());
      NothingMissing(old(View()));
    }

    /** A decoder that keeps decoding, turns that may spend an upload, and staging that
        takes one: pumped again and again with the draw path where it is, the window
        fills, unless an earlier decoder stalled at its first missing frame. */
    method Fill(wanted: Option<nat>, budget: nat, staging: nat)
      requires Valid() && slotFrame.Length > 0 && (wanted.Some? ==> wanted.value < length)
      requires budget > 0 && staging > 0 && (worker != null ==> worker.Sound())
      modifies this`base, this`pending, this`stalledAt, this`worker, this`started, slotFrame, worker
      ensures Valid() && base == BaseFor(wanted)
      ensures (forall j | base <= j < base + slotFrame.Length && j < length :: View().Resident(j))
           || (worker == null == old(worker) && stalledAt == old(stalledAt) == View().FirstMissing())
    {
      hide Window.Missing;
      var _ := Pump(wanted, budget, staging, false);
      if worker != null {
        while View().FirstMissing().Some?
          invariant Valid() && base == BaseFor(wanted)
          invariant worker == null || worker == old(worker) || fresh(worker)
          invariant worker != null ==> worker.Sound()
          invariant View().FirstMissing().Some? ==> worker != null && View().FilledTo(Position())
          decreases View().Missing(), Behind(), Undecoded()
        {
          FillTurn(wanted, budget, staging);
        }
      }
    }

    /** What the View shows for the due frame: the frame, or the hold. */
    method Draw(due: nat) returns (shown: nat)
      modifies this`misses, this`lastPresented
      ensures View().Resident(due) ==> shown == due && misses == old(misses)
      ensures !View().Resident(due) ==> shown == View().HoldFor(old(lastPresented), due) && misses == old(misses) + 1
      ensures lastPresented == Some(shown)
    {
      if View().Resident(due) {
        shown := due;
      } else {
        misses := misses + 1;
        shown := View().HoldFor(lastPresented, due);
      }
      lastPresented := Some(shown);
    }

    /** One View frame of the clip, wherever the last one left it: never past the
        clock's frame, and the clock's frame whenever that is resident. While what was
        shown last is still held and not past the frame due, never before it. */
    method Present(frame: ViewFrame) returns (shown: nat)
      requires Valid() && frame.due < length
      modifies this, slotFrame, worker
      ensures Valid() && Holding() && (worker == null || worker == old(worker) || fresh(worker))
      ensures shown <= frame.due && lastPresented == Some(shown)
      ensures View().Resident(frame.due) ==> shown == frame.due
      ensures misses == old(misses) + (if View().Resident(frame.due) then 0 else 1)
      ensures old(Holding() && lastPresented.Some? && lastPresented.value <= frame.due) ==>
                old(lastPresented).value <= shown
      ensures base == if slotFrame.Length > 0 then BaseFor(Some(frame.due)) else old(base)
      ensures old(RunsOn(frame.due)) ==>
                started == old(started) && (worker == old(worker) || worker == null) && InStep()
      ensures old(worker == null && View().Tidy() && base <= BaseFor(Some(frame.due))) ==>
                InStep() && |started| <= |old(started)| + 1
    {
      hide Window.Missing, Window.Tidy, Window.FilledJustTo, Window.MissingFrom, Window.FilledTo, Nearer, NoFurther;
      ghost var w := View();
      var _ := Pump(Some(frame.due), frame.budget, frame.staging, true);
      HoldIsResident(View(), lastPresented, frame.due);
      shown := Draw(frame.due);
    }

    /** A worker in step with the window is no more than a window behind the frame due,
        which is not behind the window. */
    ghost predicate RunsOn(due: nat)
      reads this, slotFrame, worker
    {
      worker != null && InStep()
      && base <= BaseFor(Some(due)) <= StandsAt(BaseFor(Some(due))) + slotFrame.Length
    }

    /** A whole play of the clip, taken for the first time or again, at whatever pace its
        read-ahead decodes, its uploads land and its budget varies: presented time never
        runs backwards, nor ahead of the clock. `stood` is where the decoder stood as
        each frame came due. While it is never more than a window behind the clock, a
        worker in step with the window is the only one; and a play begun with no worker,
        over a window with nothing past its first gap, starts no more than one. */
    method Play(frames: seq<ViewFrame>) returns (shown: seq<nat>, ghost stood: seq<Option<nat>>)
      requires Valid()
      requires forall k | 0 <= k < |frames| :: frames[k].due < length
      requires forall j, k | 0 <= j < k < |frames| :: frames[j].due <= frames[k].due
      modifies this, slotFrame, worker
      ensures Valid() && |shown| == |stood| == |frames|
      ensures forall k | 0 <= k < |frames| :: shown[k] <= frames[k].due
      ensures forall j, k | 0 <= j < k < |frames| :: shown[j] <= shown[k]
      ensures old(worker != null && InStep()) && (frames != [] ==> old(base) <= BaseFor(Some(frames[0].due)))
              && (forall k | 0 <= k < |frames| :: NearClock(stood[k], frames[k].due)) ==>
                started == old(started) && (worker == old(worker) || worker == null)
      ensures old(worker == null && View().Tidy()) && (frames != [] ==> old(base) <= BaseFor(Some(frames[0].due)))
              && (forall k | 0 < k < |frames| :: NearClock(stood[k], frames[k].due)) ==>
                |started| <= |old(started)| + 1
    {
      hide Window.Tidy, Window.FilledJustTo, Window.Resident, Window.FilledTo, Window.MissingFrom, Window.Valid, Holding;
      shown, stood := [], [];
      ghost var began := worker != null && InStep() && (frames != [] ==> base <= BaseFor(Some(frames[0].due)));
      ghost var near := began;
      ghost var loaded := worker == null && View().Tidy() && (frames != [] ==> base <= BaseFor(Some(frames[0].due)));
      ghost var single := loaded;
      for k := 0 to |frames|
        invariant Valid() && |shown| == |stood| == k
        invariant worker == null || worker == old(worker) || fresh(worker)
        invariant k > 0 ==> Holding() && lastPresented == Some(shown[k - 1])
        invariant forall i | 0 <= i < k :: shown[i] <= frames[i].due
        invariant forall i, j | 0 <= i < j < k :: shown[i] <= shown[j]
        invariant near ==> started == old(started) && (worker == old(worker) || worker == null) && InStep()
        invariant (near || single) && k < |frames| ==> base <= BaseFor(Some(frames[k].due))
        invariant single ==> if k == 0 then started == old(started) && worker == null && View().Tidy()
                             else |started| <= |old(started)| + 1 && InStep()
        invariant loaded && (forall i | 0 < i < k :: NearClock(stood[i], frames[i].due)) ==> single
        invariant began && (forall i | 0 <= i < k :: NearClock(stood[i], frames[i].due)) ==> near
      {
        var due := frames[k].due;
        ghost var at := if worker == null then None else Some(StandsAt(BaseFor(Some(due))));
        near := near && NearClock(at, due);
        single := single && (k == 0 || NearClock(at, due));
        stood := stood + [at];
        var s := Present(frames[k]);
        shown := shown + [s];
      }
    }

    /** A live decoder stands at `at`, at most a window behind the frame due. */
    ghost predicate NearClock(at: Option<nat>, due: nat) {
      at.Some? && BaseFor(Some(due)) <= at.value + slotFrame.Length
    }
  }

  /** The hold is below the missing frame, and is itself resident (or frame 0). */
  lemma HoldIsResident(w: Window, last: Option<nat>, i: nat)
    requires w.Valid()
    ensures !w.Resident(i) ==> w.HoldFor(last, i) <= i
    ensures !w.Resident(i) ==> w.HoldFor(last, i) == 0 || w.Resident(w.HoldFor(last, i))
  {
  }

  /** What stands in for a missing frame: what was shown last, where that is still here
      and earlier; and otherwise the latest earlier frame there is. */
  lemma HoldIsLatest(w: Window, last: Option<nat>, i: nat)
    requires w.Valid() && !w.Resident(i)
    ensures if last.Some? && last.value < i && w.Resident(last.value) then w.HoldFor(last, i) == last.value
            else forall k: nat | k < i && w.Resident(k) :: k <= w.HoldFor(last, i)
  {
    forall k: nat | k < i && w.Resident(k) && k >= w.head
      ensures w.HighestBelow(i, |w.slots|).Some? && k <= w.HighestBelow(i, |w.slots|).value
    {
      assert w.slots[w.Slot(k)] == Some(k);
    }
    var h := w.HighestBelow(i, |w.slots|);
    if h.Some? {
      var s :| 0 <= s < |w.slots| && w.slots[s] == h;
    }
  }
}
