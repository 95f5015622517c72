/** The device callback's presentation mark, published through a sequence lock.
    Every step is one atomic operation; the callback and the audio thread
    interleave in any order. */
module DeviceMarks {
  import opened Common

  datatype Mark = Mark(frame: nat, ns: nat)

  /** Where the callback's write has got to. */
  datatype Writer = Idle | Entered(m: Mark) | FrameStored(m: Mark) | NsStored(m: Mark)

  /** Where the audio thread's read has got to; `Read` carries its answer. */
  datatype Reader = Ready | SeqLoaded(s1: nat) | FrameLoaded(s1: nat, frame: nat) | NsLoaded(s1: nat, m: Mark)
                  | Read(s1: nat, answer: Option<Mark>)

  /** `marks` is every mark a callback has completed. */
  datatype Cells = Cells(seqNo: nat, frame: nat, ns: nat, writer: Writer, reader: Reader, marks: seq<Mark>)

  datatype Action = Enter(m: Mark) | StoreFrame | StoreNs | Leave
                  | LoadSeq | LoadFrame | LoadNs | CheckSeq | Again

  const START := Cells(0, 0, 0, Idle, Ready, [])

  predicate Enabled(s: Cells, a: Action) {
    match a
    case Enter(_) => s.writer.Idle?
    case StoreFrame => s.writer.Entered?
    case StoreNs => s.writer.FrameStored?
    case Leave => s.writer.NsStored?
    case LoadSeq => s.reader.Ready?
    case LoadFrame => s.reader.SeqLoaded?
    case LoadNs => s.reader.FrameLoaded?
    case CheckSeq => s.reader.NsLoaded?
    case Again => s.reader.Read?
  }

  function Apply(s: Cells, a: Action): Cells
    requires Enabled(s, a)
  {
    match a
    case Enter(m) => s.(seqNo := s.seqNo + 1, writer := Entered(m))
    case StoreFrame => s.(frame := s.writer.m.frame, writer := FrameStored(s.writer.m))
    case StoreNs => s.(ns := s.writer.m.ns, writer := NsStored(s.writer.m))
    case Leave => s.(seqNo := s.seqNo + 1, writer := Idle, marks := s.marks + [s.writer.m])
    // An odd count is a write in progress: spin and load again.
    case LoadSeq => if s.seqNo % 2 == 1 then s else s.(reader := SeqLoaded(s.seqNo))
    case LoadFrame => s.(reader := FrameLoaded(s.reader.s1, s.frame))
    case LoadNs => s.(reader := NsLoaded(s.reader.s1, Mark(s.reader.frame, s.ns)))
    case CheckSeq =>
      if s.seqNo == s.reader.s1
      then s.(reader := Read(s.reader.s1, if s.reader.s1 > 0 then Some(s.reader.m) else None))
      else s.(reader := Ready)
    case Again => s.(reader := Ready)
  }

  /** The count is twice the completed marks, and one more while a callback is
      writing; between writes the cells hold the last completed mark. A reader
      whose count has not moved holds that mark's parts. */
  ghost predicate Inv(s: Cells) {
    && s.seqNo == 2 * |s.marks| + (if s.writer.Idle? then 0 else 1)
    && (s.writer.Idle? && s.marks != [] ==> Mark(s.frame, s.ns) == s.marks[|s.marks| - 1])
    && (s.writer.FrameStored? || s.writer.NsStored? ==> s.frame == s.writer.m.frame)
    && (s.writer.NsStored? ==> s.ns == s.writer.m.ns)
    && ReaderOk(s)
  }

  /** The mark completed when the count read `s1`. */
  ghost function MarkAt(marks: seq<Mark>, s1: nat): Mark
    requires 0 < s1 && s1 / 2 <= |marks| && s1 % 2 == 0
  {
    marks[s1 / 2 - 1]
  }

  ghost predicate ReaderOk(s: Cells) {
    (!s.reader.Ready? ==> s.reader.s1 % 2 == 0 && s.reader.s1 <= s.seqNo && s.reader.s1 / 2 <= |s.marks|)
    && match s.reader
       case Ready => true
       case SeqLoaded(s1) => true
       case FrameLoaded(s1, frame) => s.seqNo == s1 > 0 ==> frame == MarkAt(s.marks, s1).frame
       case NsLoaded(s1, m) => s.seqNo == s1 > 0 ==> m == MarkAt(s.marks, s1)
       case Read(s1, answer) => answer == if s1 == 0 then None else Some(MarkAt(s.marks, s1))
  }

  lemma StepKeeps(s: Cells, a: Action)
    requires Inv(s) && Enabled(s, a)
    ensures Inv(Apply(s, a)) && s.marks <= Apply(s, a).marks
  {
  }

  ghost predicate Runs(s: Cells, run: seq<Action>)
    decreases |run|
  {
    run == [] || (Enabled(s, run[0]) && Runs(Apply(s, run[0]), run[1..]))
  }

  ghost function After(s: Cells, run: seq<Action>): Cells
    requires Runs(s, run)
    decreases |run|
  {
    if run == [] then s else After(Apply(s, run[0]), run[1..])
  }

  lemma {:induction false} RunKeeps(s: Cells, run: seq<Action>)
    requires Inv(s) && Runs(s, run)
    ensures Inv(After(s, run)) && s.marks <= After(s, run).marks
    decreases |run|
  {
    if run != [] {
      StepKeeps(s, run[0]);
      RunKeeps(Apply(s, run[0]), run[1..]);
    }
  }

  /** Under any interleaving of callbacks with a read that begins once `before`
      marks are complete: an answer is exactly one callback's mark, frame and
      instant together, no older than the latest when the read began; and there
      is no answer only if no callback has ever completed. */
  lemma AnswerIsOneCallbacksMark(prefix: seq<Action>, read: seq<Action>)
    requires Runs(START, prefix) && After(START, prefix).reader.Ready?
    requires Runs(After(START, prefix), read) && Again !in read
    requires After(After(START, prefix), read).reader.Read?
    ensures var began, end := After(START, prefix), After(After(START, prefix), read);
            match end.reader.answer
            case None => began.marks == []
            case Some(m) => exists k | 0 <= k < |end.marks| :: end.marks[k] == m && k >= |began.marks| - 1
  {
    var began := After(START, prefix);
    RunKeeps(START, prefix);
    RunKeeps(began, read);
    ReadBeganAfter(began, began, read);
    var end := After(began, read);
    if end.reader.s1 > 0 {
      assert end.marks[end.reader.s1 / 2 - 1] == end.reader.answer.value;
    }
  }

  /** A read that no callback enters does answer, with the latest mark completed. */
  lemma UndisturbedReadAnswers(prefix: seq<Action>)
    requires Runs(START, prefix)
    requires var s := After(START, prefix); s.writer.Idle? && s.reader.Ready?
    ensures var s, read := After(START, prefix), [LoadSeq, LoadFrame, LoadNs, CheckSeq];
            && Runs(s, read) && After(s, read).reader.Read?
            && After(s, read).reader.answer == if s.marks == [] then None else Some(s.marks[|s.marks| - 1])
  {
    RunKeeps(START, prefix);
    var s := After(START, prefix);
    var s1 := Apply(s, LoadSeq);
    var s2 := Apply(s1, LoadFrame);
    var s3 := Apply(s2, LoadNs);
    FourSteps(s, LoadSeq, LoadFrame, LoadNs, CheckSeq);
  }

  /** A callback's four steps complete its mark, whatever a read is about. */
  lemma CallbackCompletesItsMark(prefix: seq<Action>, m: Mark)
    requires Runs(START, prefix)
    requires After(START, prefix).writer.Idle?
    ensures var s, write := After(START, prefix), [Enter(m), StoreFrame, StoreNs, Leave];
            && Runs(s, write) && After(s, write).marks == s.marks + [m]
            && After(s, write).writer.Idle? && Mark(After(s, write).frame, After(s, write).ns) == m
  {
    FourSteps(After(START, prefix), Enter(m), StoreFrame, StoreNs, Leave);
  }

  lemma FourSteps(s: Cells, a: Action, b: Action, c: Action, d: Action)
    requires Enabled(s, a) && Enabled(Apply(s, a), b) && Enabled(Apply(Apply(s, a), b), c)
    requires Enabled(Apply(Apply(Apply(s, a), b), c), d)
    ensures Runs(s, [a, b, c, d]) && After(s, [a, b, c, d]) == Apply(Apply(Apply(Apply(s, a), b), c), d)
  {
    hide Enabled, Apply, Runs, After;
    assert [a, b, c, d] == [a] + [b, c, d] && [b, c, d] == [b] + [c, d] && [c, d] == [c] + [d] && [d] == [d] + [];
    var t := Apply(Apply(s, a), b);
    NoSteps(Apply(Apply(t, c), d));
    OneStep(Apply(t, c), d, []);
    OneStep(t, c, [d]);
    OneStep(Apply(s, a), b, [c, d]);
    OneStep(s, a, [b, c, d]);
  }

  lemma NoSteps(s: Cells)
    ensures Runs(s, []) && After(s, []) == s
  {
  }

  lemma OneStep(s: Cells, a: Action, rest: seq<Action>)
    requires Enabled(s, a) && Runs(Apply(s, a), rest)
    ensures Runs(s, [a] + rest) && After(s, [a] + rest) == After(Apply(s, a), rest)
  {
    assert ([a] + rest)[1..] == rest;
  }

  /** The count a read works from is no older than its beginning. */
  lemma {:induction false} ReadBeganAfter(began: Cells, s: Cells, run: seq<Action>)
    requires Inv(s) && Runs(s, run) && 2 * |began.marks| <= s.seqNo && Again !in run
    requires s.reader.Ready? || s.reader.s1 >= 2 * |began.marks|
    ensures !After(s, run).reader.Ready? ==> After(s, run).reader.s1 >= 2 * |began.marks|
    decreases |run|
  {
    if run != [] {
      StepKeeps(s, run[0]);
      ReadBeganAfter(began, Apply(s, run[0]), run[1..]);
    }
  }
}
