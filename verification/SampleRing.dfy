/** A ring of samples between an audio thread and a device callback, each owning one
    counter that only grows. Every step is one atomic load or store, so a run is any
    interleaving of the two ends. */
module SampleRing {
  import opened IntFacts

  const CHANNELS := 2

  /** Where the audio thread's push has got to. */
  datatype Producer<T> =
    | Resting
    | Counted(samples: seq<T>, w: nat)
    | Storing(samples: seq<T>, w: nat, n: nat, i: nat)

  /** Where the device callback's pop has got to. */
  datatype Consumer<T> =
    | Waiting
    | Started(room: nat, r: nat)
    | Loading(r: nat, n: nat, out: seq<T>)

  /** The shared cells and counters, and both ends. `pushed` and `popped` are the
      samples every completed push and pop has moved. */
  datatype Ring<T> = Ring(
    buf: seq<T>,
    written: nat,
    read: nat,
    producer: Producer<T>,
    consumer: Consumer<T>,
    pushed: seq<T>,
    popped: seq<T>)

  datatype Action<T> =
    | LoadWritten(samples: seq<T>)
    | LoadRead
    | StoreCell
    | StoreWritten
    | CountRead(room: nat)
    | CountWritten
    | LoadCell
    | StoreRead

  function Whole(n: nat): (m: nat)
    ensures m <= n < m + CHANNELS && m % CHANNELS == 0
  {
    n / CHANNELS * CHANNELS
  }

  function Min(a: int, b: int): int { if b < a then b else a }

  function Init<T>(capacityFrames: nat, zero: T): Ring<T> {
    var cells := (if capacityFrames == 0 then 1 else capacityFrames) * CHANNELS;
    Ring(seq(cells, _ => zero), 0, 0, Resting, Waiting, [], [])
  }

  predicate Enabled<T>(s: Ring<T>, a: Action<T>) {
    match a
    case LoadWritten(_) => s.producer.Resting?
    case LoadRead => s.producer.Counted?
    case StoreCell => s.producer.Storing? && s.producer.i < s.producer.n <= |s.producer.samples|
    case StoreWritten => s.producer.Storing? && s.producer.i == s.producer.n <= |s.producer.samples|
    case CountRead(_) => s.consumer.Waiting?
    case CountWritten => s.consumer.Started?
    case LoadCell => s.consumer.Loading? && |s.consumer.out| < s.consumer.n
    case StoreRead => s.consumer.Loading? && |s.consumer.out| == s.consumer.n
  }

  /** Unsigned subtraction, which the source never lets pass below zero. */
  function Fill<T>(s: Ring<T>): int { s.written - s.read }

  /** The largest number of whole frames, in samples, that the free cells take. */
  function PushCount(samples: nat, w: nat, read: nat, capacity: nat): nat {
    var free := capacity - (w - read);
    if free < 0 then 0 else Whole(Min(samples, free))
  }

  function PopCount(room: nat, r: nat, written: nat): nat {
    if written < r then 0 else Whole(Min(room, written - r))
  }

  function Apply<T>(s: Ring<T>, a: Action<T>): Ring<T>
    requires Enabled(s, a) && |s.buf| > 0
  {
    match a
    case LoadWritten(samples) => s.(producer := Counted(samples, s.written))
    case LoadRead =>
      var p := s.producer;
      s.(producer := Storing(p.samples, p.w, PushCount(|p.samples|, p.w, s.read, |s.buf|), 0))
    case StoreCell =>
      var p := s.producer;
      s.(buf := s.buf[(p.w + p.i) % |s.buf| := p.samples[p.i]], producer := p.(i := p.i + 1))
    case StoreWritten =>
      var p := s.producer;
      s.(written := p.w + p.n, producer := Resting, pushed := s.pushed + p.samples[..p.n])
    case CountRead(room) => s.(consumer := Started(room, s.read))
    case CountWritten =>
      var c := s.consumer;
      s.(consumer := Loading(c.r, PopCount(c.room, c.r, s.written), []))
    case LoadCell =>
      var c := s.consumer;
      s.(consumer := c.(out := c.out + [s.buf[(c.r + |c.out|) % |s.buf|]]))
    case StoreRead =>
      var c := s.consumer;
      s.(read := c.r + c.n, consumer := Waiting, popped := s.popped + c.out)
  }

  // ---------------------------------------------------------------------
  // What every step keeps.
  // ---------------------------------------------------------------------

  ghost predicate Inv<T>(s: Ring<T>) {
    && |s.buf| > 0 && |s.buf| % CHANNELS == 0
    && s.written == |s.pushed| && s.read == |s.popped|
    && s.written % CHANNELS == 0 && s.read % CHANNELS == 0
    && s.read <= s.written <= s.read + |s.buf|
    && s.popped == s.pushed[..s.read]
    && CellsHold(s.buf, s.pushed, s.read)
    && ProducerOk(s) && ConsumerOk(s)
  }

  /** Every sample pushed and not yet popped is in its cell. */
  ghost predicate CellsHold<T>(buf: seq<T>, pushed: seq<T>, read: nat)
    requires |buf| > 0
  {
    forall k | read <= k < |pushed| :: buf[k % |buf|] == pushed[k]
  }

  /** The cells being stored lie past everything the consumer may still read. */
  ghost predicate ProducerOk<T>(s: Ring<T>)
    requires |s.buf| > 0
  {
    match s.producer
    case Resting => true
    case Counted(_, w) => w == s.written
    case Storing(samples, w, n, i) =>
      && w == s.written && i <= n <= |samples| && n % CHANNELS == 0 && w + n <= s.read + |s.buf|
      && forall k | 0 <= k < i :: s.buf[(w + k) % |s.buf|] == samples[k]
  }

  /** The cells being read were all published. */
  ghost predicate ConsumerOk<T>(s: Ring<T>) {
    match s.consumer
    case Waiting => true
    case Started(_, r) => r == s.read
    case Loading(r, n, out) =>
      && r == s.read && |out| <= n && n % CHANNELS == 0 && r + n <= s.written == |s.pushed|
      && out == s.pushed[r..r + |out|]
  }

  lemma OtherCell(k: nat, at: nat, capacity: nat)
    requires capacity > 0 && k < at < k + capacity
    ensures k % capacity != at % capacity
  {
    if k % capacity == at % capacity {
      SameRemainder(k, at, capacity);
    }
  }

  lemma StoreKeepsCells<T>(s: Ring<T>)
    requires Inv(s) && Enabled(s, StoreCell)
    ensures Inv(Apply(s, StoreCell))
  {
    var p, t := s.producer, Apply(s, StoreCell);
    var at := p.w + p.i;
    forall k | s.read <= k < at
      ensures t.buf[k % |s.buf|] == s.buf[k % |s.buf|]
    {
      OtherCell(k, at, |s.buf|);
    }
    forall k | 0 <= k < p.i + 1
      ensures t.buf[(p.w + k) % |s.buf|] == p.samples[k]
    {
      if k < p.i {
        assert s.read <= p.w + k < at;
      }
    }
  }

  lemma PublishKeepsCells<T>(s: Ring<T>)
    requires Inv(s) && Enabled(s, StoreWritten)
    ensures Inv(Apply(s, StoreWritten))
  {
  }

  lemma LoadKeeps<T>(s: Ring<T>)
    requires Inv(s) && Enabled(s, LoadCell)
    ensures Inv(Apply(s, LoadCell))
  {
  }

  lemma ReleaseKeeps<T>(s: Ring<T>)
    requires Inv(s) && Enabled(s, StoreRead)
    ensures Inv(Apply(s, StoreRead))
  {
  }

  lemma CountKeeps<T>(s: Ring<T>, a: Action<T>)
    requires Inv(s) && Enabled(s, a)
    requires a.LoadWritten? || a.LoadRead? || a.CountRead? || a.CountWritten?
    ensures Inv(Apply(s, a))
  {
  }

  /** Every atomic step of either end keeps the invariant. */
  lemma StepKeeps<T>(s: Ring<T>, a: Action<T>)
    requires Inv(s) && Enabled(s, a)
    ensures Inv(Apply(s, a))
  {
    hide Inv, Apply;
    match a
    case StoreCell => StoreKeepsCells(s);
    case StoreWritten => PublishKeepsCells(s);
    case LoadCell => LoadKeeps(s);
    case StoreRead => ReleaseKeeps(s);
    case _ => CountKeeps(s, a);
  }

  ghost predicate Runs<T>(s: Ring<T>, run: seq<Action<T>>)
    decreases |run|
  {
    run == [] || (|s.buf| > 0 && Enabled(s, run[0]) && Runs(Apply(s, run[0]), run[1..]))
  }

  ghost function After<T>(s: Ring<T>, run: seq<Action<T>>): (t: Ring<T>)
    requires Runs(s, run)
    ensures |t.buf| == |s.buf|
    decreases |run|
  {
    if run == [] then s else After(Apply(s, run[0]), run[1..])
  }

  lemma {:induction false} RunKeeps<T>(s: Ring<T>, run: seq<Action<T>>)
    requires Inv(s) && Runs(s, run)
    ensures Inv(After(s, run))
    decreases |run|
  {
    if run != [] {
      StepKeeps(s, run[0]);
      RunKeeps(Apply(s, run[0]), run[1..]);
    }
  }

  /** Under any interleaving, what has been popped is what was pushed, in order,
      whole frames only, and never more than the capacity waits. */
  lemma FifoUnderAnyInterleaving<T>(capacityFrames: nat, zero: T, run: seq<Action<T>>)
    requires Runs(Init(capacityFrames, zero), run)
    ensures var s := After(Init(capacityFrames, zero), run);
            && s.popped <= s.pushed
            && |s.pushed| == s.written && |s.popped| == s.read
            && |s.pushed| % CHANNELS == 0 && |s.popped| % CHANNELS == 0
            && 0 <= |s.pushed| - |s.popped| <= |s.buf|
  {
    RunKeeps(Init(capacityFrames, zero), run);
  }

  /** The queue a caller sees: pushed and not yet popped. */
  ghost function Queue<T>(s: Ring<T>): seq<T>
    requires Inv(s)
  {
    s.pushed[s.read..]
  }

  /** Each step leaves the queue alone, appends one pushed prefix whole, or takes
      one popped prefix off its front: the ring refines a bounded FIFO. */
  lemma StepRefinesFifo<T>(s: Ring<T>, a: Action<T>)
    requires Inv(s) && Enabled(s, a)
    ensures Inv(Apply(s, a))
    ensures match a
            case StoreWritten => Queue(Apply(s, a)) == Queue(s) + s.producer.samples[..s.producer.n]
            case StoreRead => Queue(s) == s.consumer.out + Queue(Apply(s, a))
            case _ => Queue(Apply(s, a)) == Queue(s)
    ensures |Queue(Apply(s, a))| <= |s.buf|
  {
    StepKeeps(s, a);
  }

  /** A push takes every whole frame that fits at the moment it reads the
      consumer's counter: it is short only of room, or of a whole frame. */
  lemma PushTakesWhatFits<T>(s: Ring<T>)
    requires Inv(s) && Enabled(s, LoadRead)
    ensures var p := Apply(s, LoadRead).producer;
            && p.n <= |p.samples| && p.n <= |s.buf| - |Queue(s)|
            && (p.n + CHANNELS > |p.samples| || p.n == |s.buf| - |Queue(s)|)
  {
  }

  /** A pop takes every whole frame that waits when it reads the producer's counter: it
      is short only of samples, or of room for a whole frame. */
  lemma PopTakesWhatWaits<T>(s: Ring<T>)
    requires Inv(s) && Enabled(s, CountWritten)
    ensures var n := Apply(s, CountWritten).consumer.n;
            && n <= s.consumer.room && n <= |Queue(s)| && n % CHANNELS == 0
            && (n + CHANNELS > s.consumer.room || n == |Queue(s)|)
  {
  }

  ghost predicate NeverReleases<T>(run: seq<Action<T>>) { forall i | 0 <= i < |run| :: !run[i].StoreRead? }

  /** What waits when a callback has counted it waits, at the front, until released. */
  lemma {:induction false} FrontWaits<T>(s: Ring<T>, run: seq<Action<T>>)
    requires Inv(s) && s.consumer.Loading? && Runs(s, run) && NeverReleases(run)
    ensures var t := After(s, run);
            && Inv(t) && t.popped == s.popped && Queue(s) <= Queue(t)
            && t.consumer.Loading? && t.consumer.n == s.consumer.n
    decreases |run|
  {
    if run != [] {
      StepRefinesFifo(s, run[0]);
      FrontWaits(Apply(s, run[0]), run[1..]);
    }
  }

  /** A callback run through, whatever the producer does meanwhile: what it releases is
      exactly the front of the queue it counted, as much as fits its room, and no more
      leaves the queue. */
  lemma CallbackTakesTheFront<T>(s: Ring<T>, run: seq<Action<T>>)
    requires Inv(s) && Enabled(s, CountWritten)
    requires Runs(Apply(s, CountWritten), run) && NeverReleases(run)
    requires Enabled(After(Apply(s, CountWritten), run), StoreRead)
    ensures var t := After(Apply(s, CountWritten), run);
            var n := Apply(s, CountWritten).consumer.n;
            && Inv(t) && Inv(Apply(t, StoreRead)) && n <= |Queue(s)|
            && Apply(t, StoreRead).popped == s.popped + Queue(s)[..n]
            && Queue(t) == Queue(s)[..n] + Queue(Apply(t, StoreRead))
  {
    var counted := Apply(s, CountWritten);
    StepRefinesFifo(s, CountWritten);
    PopTakesWhatWaits(s);
    FrontWaits(counted, run);
    var t := After(counted, run);
    StepRefinesFifo(t, StoreRead);
    assert t.consumer.out == Queue(t)[..t.consumer.n];
    assert Queue(t)[..t.consumer.n] == Queue(s)[..t.consumer.n];
  }

  /** It always can be: a callback short of its count loads one more, and then releases. */
  lemma CallbackGoesOn<T>(s: Ring<T>)
    requires Inv(s) && s.consumer.Loading?
    ensures Enabled(s, LoadCell) || Enabled(s, StoreRead)
    ensures Enabled(s, LoadCell) ==> |Apply(s, LoadCell).consumer.out| == |s.consumer.out| + 1
  {
  }

  /** A push run through, whatever the callback does meanwhile, publishes the samples it
      found room for, in order, behind all published before. */
  lemma {:induction false} PushAppends<T>(s: Ring<T>, run: seq<Action<T>>)
    requires Inv(s) && s.producer.Storing? && Runs(s, run) && PublishesNothing(run)
    ensures var t := After(s, run);
            && Inv(t) && t.pushed == s.pushed && t.producer.Storing?
            && t.producer.samples == s.producer.samples && t.producer.n == s.producer.n
            && (Enabled(t, StoreWritten) ==>
                  Apply(t, StoreWritten).pushed == s.pushed + s.producer.samples[..s.producer.n])
    decreases |run|
  {
    if run != [] {
      StepKeeps(s, run[0]);
      PushAppends(Apply(s, run[0]), run[1..]);
    }
  }

  ghost predicate PublishesNothing<T>(run: seq<Action<T>>) { forall i | 0 <= i < |run| :: !run[i].StoreWritten? }

  /** Until the producer publishes again, the queue only shrinks. */
  lemma {:induction false} QueueOnlyShrinks<T>(s: Ring<T>, run: seq<Action<T>>)
    requires Inv(s) && Runs(s, run) && PublishesNothing(run)
    ensures Inv(After(s, run)) && |Queue(After(s, run))| <= |Queue(s)|
    decreases |run|
  {
    if run != [] {
      StepRefinesFifo(s, run[0]);
      QueueOnlyShrinks(Apply(s, run[0]), run[1..]);
    }
  }

  const TARGET_FILL_BLOCKS := 2
  const RING_BLOCKS := 8

  /** The audio driver's fill loop reads a fill under its target in `s`, renders a
      block while the device goes on popping, and pushes it: even a block
      lengthened by a slip is never cut short. */
  lemma FillLoopNeverPushesShort<T>(s: Ring<T>, run: seq<Action<T>>, block: nat)
    requires Inv(s) && |s.buf| == RING_BLOCKS * block * CHANNELS
    requires Fill(s) / CHANNELS < TARGET_FILL_BLOCKS * block
    requires Runs(s, run) && PublishesNothing(run) && Enabled(After(s, run), LoadRead)
    requires var n := |After(s, run).producer.samples|; n <= (block + 1) * CHANNELS && n % CHANNELS == 0
    ensures Apply(After(s, run), LoadRead).producer.n == |After(s, run).producer.samples|
  {
    QueueOnlyShrinks(s, run);
    PushTakesWhatFits(After(s, run));
  }
}
