/** Decoding ahead of the picture: a worker that goes through a clip in order, and the
    short queue between it and the drawing side. */
module ReadingAhead {

  /** How long the queue may grow. */
  const CHANNEL_DEPTH := 2

  datatype Delivery = Frame(index: nat) | Pending | Done

  class ReadAhead {
    const start: nat
    const end: nat

    // The worker thread's side: how far into the clip it is, its queue, and whether
    // it is over.
    var index: nat
    var channel: seq<nat>
    var exited: bool

    // The render thread's side.
    var next: nat
    var done: bool

    ghost predicate Valid()
      reads this
    {
      && |channel| <= CHANNEL_DEPTH
      && start <= next <= end
      && (if index < start then channel == [] && next == start else next + |channel| == index <= end)
      && (forall k | 0 <= k < |channel| :: channel[k] == next + k)
      && (done ==> exited && channel == [])
    }

    /** The worker has not returned short of its end. */
    ghost predicate Sound()
      reads this
    {
      exited ==> index >= end
    }

    constructor (start: nat, end: nat)
      requires start <= end
      ensures Valid() && this.start == start && this.end == end && next == start && !done && !exited && index == 0
    {
      this.start, this.end := start, end;
      index, channel, exited, next, done := 0, [], false, start, false;
    }

    /** The worker goes one frame on, queueing it from `start` on, if the queue has a
        place and its decoder does not stop it. */
    method Step(stops: bool)
      requires Valid()
      modifies this`index, this`channel, this`exited
      ensures Valid() && old(channel) <= channel && (old(exited) ==> exited) && index >= old(index)
      ensures !stops && old(Sound()) ==> Sound()
      ensures var waits := start <= old(index) < end && |old(channel)| == CHANNEL_DEPTH;
              if old(exited) || waits then (index, channel, exited) == old((index, channel, exited))
              else if stops || old(index) >= end then exited && (index, channel) == old((index, channel))
              else index == old(index) + 1 && !exited
                   && channel == old(channel) + (if old(index) >= start then [old(index)] else [])
    {
      if exited || (index >= start && |channel| == CHANNEL_DEPTH && index < end) {
        return;
      }
      if stops || index >= end {
        exited := true;
      } else {
        if index >= start {
          channel := channel + [index];
        }
        index := index + 1;
      }
    }

    /** Any number of worker steps, at any pace; its decoder may fail it only if
        `mayStop`. */
    method RunWorker(mayStop: bool)
      requires Valid()
      modifies this`index, this`channel, this`exited
      ensures Valid() && old(channel) <= channel && (old(exited) ==> exited) && index >= old(index)
      ensures !mayStop && old(Sound()) ==> Sound()
    {
      var steps: nat := *;
      while steps > 0
        invariant Valid() && old(channel) <= channel && (old(exited) ==> exited) && index >= old(index)
        invariant !mayStop && old(Sound()) ==> Sound()
      {
        var stops: bool := *;
        Step(mayStop && stops);
        steps := steps - 1;
      }
    }

    /** Look at the queue without waiting. Indices come one by one without a gap, and
        `Done` says the worker has returned and all it queued has been taken. */
    method Poll() returns (d: Delivery)
      requires Valid()
      modifies this`channel, this`next, this`done
      ensures Valid()
      ensures d.Frame? ==> d.index == old(next) < end && next == old(next) + 1 && old(channel) == [d.index] + channel
      ensures !d.Frame? ==> next == old(next) && channel == old(channel) == []
      ensures d.Done? <==> exited && old(channel) == []
    {
      if done {
        return Done;
      }
      if channel != [] {
        d := Frame(channel[0]);
        next := channel[0] + 1;
        channel := channel[1..];
      } else if exited {
        done := true;
        d := Done;
      } else {
        d := Pending;
      }
    }
  }
}
