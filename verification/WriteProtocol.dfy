/** Writing a batch to its shards: a goroutine for each shard, a bounded channel, a collector, and any interleaving of their steps. */
module WriteProtocol {

  /** What the store says to a write. */
  datatype Outcome = Written | PartialWrite | ShardNotFound | ShardDeletion | OtherFailure

  datatype Result = Nil | Failed(reason: Outcome) | WriteFailed | TimedOut

  /** Where a shard writer stands. */
  datatype Phase =
    | Unborn
    | Ready
    | Missing
    | Again
    | Decided(r: Result)
    | Counted(r: Result)
    | Sent(r: Result)

  /** A shard writer, with the answers the store has given it. */
  datatype Writer = Writer(phase: Phase, answers: seq<Outcome>)

  datatype Collector = Spawning | Collecting | Returned(r: Result)

  datatype State = State(
    writers: seq<Writer>,
    channel: seq<Result>,
    taken: seq<Result>,
    collector: Collector,
    dropped: nat,
    writeOK: nat,
    writeErr: nat,
    timeouts: nat)

  predicate Start(s: State) {
    && (forall i :: 0 <= i < |s.writers| ==> s.writers[i] == Writer(Unborn, []))
    && s.channel == [] && s.taken == [] && s.collector.Spawning?
    && s.writeOK == 0 && s.writeErr == 0 && s.timeouts == 0
  }

  // ---- the steps ----

  datatype Step =
    | Spawn(i: nat)
    | Collect
    | First(i: nat, o: Outcome)
    | Create(i: nat, ok: bool)
    | Second(i: nat, o: Outcome)
    | Count(i: nat)
    | Send(i: nat)
    | Receive
    | Timeout
    | Close
    | Finish

  /** The first answer of the store: a partial write is final, a missing shard is created, anything else is tried again. */
  function AfterFirst(o: Outcome): Phase {
    match o
    case Written => Decided(Nil)
    case PartialWrite => Decided(Failed(o))
    case ShardNotFound => Missing
    case _ => Again
  }

  function AfterSecond(o: Outcome): Phase {
    if o.Written? then Decided(Nil) else Decided(Failed(o))
  }

  /** A shard that is being deleted is reported as a partial write. */
  function Reported(r: Result): Result {
    if r == Failed(ShardDeletion) then Failed(PartialWrite) else r
  }

  /** What the caller gets when all results were nil: points beyond the retention policy are an error. */
  function AllWritten(dropped: nat): Result {
    if dropped > 0 then Failed(PartialWrite) else Nil
  }

  predicate CanMove(w: Writer, step: Step) {
    match step
    case Spawn(_) => w.phase.Unborn?
    case First(_, _) => w.phase.Ready?
    case Create(_, _) => w.phase.Missing?
    case Second(_, _) => w.phase.Again?
    case Count(_) => w.phase.Decided?
    case Send(_) => w.phase.Counted?
    case _ => false
  }

  /** A writer after a step of its own. */
  function Moved(w: Writer, step: Step): Writer
    requires CanMove(w, step)
  {
    match step
    case Spawn(_) => w.(phase := Ready)
    case First(_, o) => Writer(AfterFirst(o), w.answers + [o])
    case Create(_, ok) => w.(phase := if ok then Again else Decided(Failed(OtherFailure)))
    case Second(_, o) => Writer(AfterSecond(o), w.answers + [o])
    case Count(_) => w.(phase := Counted(Reported(w.phase.r)))
    case Send(_) => w.(phase := Sent(w.phase.r))
  }

  /** The channel has room for one more result. */
  predicate HasRoom(s: State) {
    |s.channel| < |s.writers|
  }

  /** The state after a step of one writer: Count bumps one of the counters, Send puts the result on the channel. */
  function AfterWriter(s: State, i: nat, step: Step): State
    requires i < |s.writers| && CanMove(s.writers[i], step)
  {
    var w := s.writers[i];
    var moved := s.(writers := s.writers[i := Moved(w, step)]);
    match step
    case Count(_) =>
      if w.phase.r.Nil? then moved.(writeOK := s.writeOK + 1) else moved.(writeErr := s.writeErr + 1)
    case Send(_) => moved.(channel := s.channel + [w.phase.r])
    case _ => moved
  }

  predicate IsWriterStep(step: Step) {
    step.Spawn? || step.First? || step.Create? || step.Second? || step.Count? || step.Send?
  }

  predicate Next(s: State, s': State, step: Step) {
    if IsWriterStep(step) then
      && step.i < |s.writers| && CanMove(s.writers[step.i], step)
      && (step.Spawn? ==> s.collector.Spawning?)
      && (step.Send? ==> HasRoom(s))
      && s' == AfterWriter(s, step.i, step)
    else if step.Collect? then
      && s.collector.Spawning? && (forall i :: 0 <= i < |s.writers| ==> !s.writers[i].phase.Unborn?)
      && s' == s.(collector := Collecting)
    else if step.Finish? then
      s.collector.Collecting? && |s.taken| == |s.writers| && s' == s.(collector := Returned(AllWritten(s.dropped)))
    else
      && s.collector.Collecting? && |s.taken| < |s.writers|
      && (step.Receive? ==> s.channel != [])
      && s' == AfterCollector(s, step)
  }

  /** One round of the collector: a result, the timeout, or the closing of the writer. */
  function AfterCollector(s: State, step: Step): State
    requires step.Receive? ==> s.channel != []
  {
    match step
    case Receive =>
      var r := s.channel[0];
      s.(channel := s.channel[1..], taken := s.taken + [r], collector := if r.Nil? then Collecting else Returned(r))
    case Timeout => s.(collector := Returned(TimedOut), timeouts := s.timeouts + 1)
    case _ => s.(collector := Returned(WriteFailed))
  }

  // ---- what is kept ----

  /** What a writer has contributed so far: a counted result, and a result on the channel. */
  datatype Mark = Ok | Err | Message(r: Result)

  function MarksOf(w: Writer): multiset<Mark> {
    match w.phase
    case Counted(r) => multiset{Tally(r)}
    case Sent(r) => multiset{Tally(r)} + multiset{Message(r)}
    case _ => multiset{}
  }

  function Tally(r: Result): Mark {
    if r.Nil? then Ok else Err
  }

  function Marks(ws: seq<Writer>): multiset<Mark> {
    if ws == [] then multiset{} else MarksOf(ws[0]) + Marks(ws[1..])
  }

  lemma {:induction false} MarksUpdate(ws: seq<Writer>, i: nat, w: Writer)
    requires i < |ws|
    ensures Marks(ws[i := w]) + MarksOf(ws[i]) == Marks(ws) + MarksOf(w)
    decreases |ws|
  {
    hide MarksOf;
    if i == 0 {
      assert ws[0 := w][1..] == ws[1..];
      assert MarksOf(w) + Marks(ws[1..]) + MarksOf(ws[0]) == MarksOf(ws[0]) + Marks(ws[1..]) + MarksOf(w);
    } else {
      var was, now := Marks(ws[1..]), Marks(ws[1..][i - 1 := w]);
      assert ws[i := w][1..] == ws[1..][i - 1 := w];
      MarksUpdate(ws[1..], i - 1, w);
      assert MarksOf(ws[0]) + now + MarksOf(ws[i]) == MarksOf(ws[0]) + (now + MarksOf(ws[i]));
      assert MarksOf(ws[0]) + was + MarksOf(w) == MarksOf(ws[0]) + (was + MarksOf(w));
    }
  }

  function Messages(rs: seq<Result>): multiset<Mark> {
    if rs == [] then multiset{} else Messages(rs[..|rs| - 1]) + multiset{Message(rs[|rs| - 1])}
  }

  /** The answers of the store that lead to each phase; a nil result means that the last write succeeded. */
  predicate Consistent(w: Writer) {
    match w.phase
    case Unborn => w.answers == []
    case Ready => w.answers == []
    case Missing => w.answers == [ShardNotFound]
    case Again => |w.answers| == 1 && !w.answers[0].Written? && !w.answers[0].PartialWrite?
    case Decided(r) => Answered(w.answers, r)
    case Counted(r) => Answered(w.answers, r)
    case Sent(r) => Answered(w.answers, r)
  }

  predicate Answered(answers: seq<Outcome>, r: Result) {
    && 1 <= |answers| <= 2 && (r.Nil? <==> answers[|answers| - 1].Written?)
    && (|answers| == 2 ==> !answers[0].Written? && !answers[0].PartialWrite?)
  }

  /** The sum of what the writers did is what the counters, the channel and the collector have. */
  ghost predicate Balanced(s: State) {
    && (forall r :: Marks(s.writers)[Message(r)] == Messages(s.taken + s.channel)[Message(r)])
    && Marks(s.writers)[Ok] == s.writeOK && Marks(s.writers)[Err] == s.writeErr
  }

  predicate CollectorOk(s: State) {
    && |s.taken| <= |s.writers|
    && (!s.collector.Returned? ==> forall i :: 0 <= i < |s.taken| ==> s.taken[i].Nil?)
    && (s.collector.Returned? && s.collector.r.Nil? ==>
        |s.taken| == |s.writers| && s.dropped == 0 && forall i :: 0 <= i < |s.taken| ==> s.taken[i].Nil?)
  }

  ghost predicate Invariant(s: State) {
    && Balanced(s) && CollectorOk(s)
    && |s.taken| + |s.channel| == SentCount(s.writers)
    && forall i :: 0 <= i < |s.writers| ==> Consistent(s.writers[i])
  }

  function SentCount(ws: seq<Writer>): nat {
    if ws == [] then 0 else (if ws[0].phase.Sent? then 1 else 0) + SentCount(ws[1..])
  }

  lemma {:induction false} SentCountUpdate(ws: seq<Writer>, i: nat, w: Writer)
    requires i < |ws|
    ensures SentCount(ws[i := w]) + (if ws[i].phase.Sent? then 1 else 0) == SentCount(ws) + (if w.phase.Sent? then 1 else 0)
    ensures SentCount(ws) <= |ws|
    decreases |ws|
  {
    SentAtMost(ws);
    if i == 0 {
      assert ws[0 := w][1..] == ws[1..];
    } else {
      assert ws[i := w][1..] == ws[1..][i - 1 := w];
      SentCountUpdate(ws[1..], i - 1, w);
    }
  }

  lemma {:induction false} SentAtMost(ws: seq<Writer>)
    ensures SentCount(ws) <= |ws|
    ensures SentCount(ws) == |ws| ==> forall i :: 0 <= i < |ws| ==> ws[i].phase.Sent?
    ensures (exists i :: 0 <= i < |ws| && !ws[i].phase.Sent?) ==> SentCount(ws) < |ws|
  {
    if ws != [] {
      SentAtMost(ws[1..]);
      assert forall i :: 1 <= i < |ws| ==> ws[i] == ws[1..][i - 1];
    }
  }

  lemma {:induction false} StartMarks(ws: seq<Writer>)
    requires forall i :: 0 <= i < |ws| ==> ws[i] == Writer(Unborn, [])
    ensures Marks(ws) == multiset{} && SentCount(ws) == 0
  {
    if ws != [] {
      StartMarks(ws[1..]);
    }
  }

  lemma StartInvariant(s: State)
    requires Start(s)
    ensures Invariant(s)
  {
    StartMarks(s.writers);
    assert s.taken + s.channel == [];
  }

  lemma WriterConsistent(w: Writer, step: Step)
    requires Consistent(w) && CanMove(w, step)
    ensures Consistent(Moved(w, step))
  {
  }

  function NewMarks(w: Writer, step: Step): multiset<Mark>
    requires CanMove(w, step)
  {
    match step
    case Count(_) => multiset{Tally(w.phase.r)}
    case Send(_) => multiset{Message(w.phase.r)}
    case _ => multiset{}
  }

  lemma Cancel(a: multiset<Mark>, b: multiset<Mark>, c: multiset<Mark>, d: multiset<Mark>)
    requires a + c == b + (c + d)
    ensures a == b + d
  {
    forall m ensures a[m] == (b + d)[m] {
      assert (a + c)[m] == (b + (c + d))[m];
    }
  }

  lemma MarksAfter(ws: seq<Writer>, i: nat, step: Step)
    requires i < |ws| && CanMove(ws[i], step)
    ensures Marks(ws[i := Moved(ws[i], step)]) == Marks(ws) + NewMarks(ws[i], step)
  {
    hide Marks, MarksOf, Moved, NewMarks;
    WriterMarks(ws[i], step);
    MarksUpdate(ws, i, Moved(ws[i], step));
    Cancel(Marks(ws[i := Moved(ws[i], step)]), Marks(ws), MarksOf(ws[i]), NewMarks(ws[i], step));
  }

  /** Any step of a writer: its marks change by what the step does. */
  lemma WriterMarks(w: Writer, step: Step)
    requires CanMove(w, step)
    ensures MarksOf(Moved(w, step)) == MarksOf(w) + NewMarks(w, step)
    ensures Moved(w, step).phase.Sent? <==> step.Send?
    ensures !w.phase.Sent?
  {
  }

  /** The invariant is kept by every step. */
  lemma StepKeeps(s: State, s': State, step: Step)
    requires Invariant(s) && Next(s, s', step)
    ensures Invariant(s')
  {
    hide Marks, Messages, SentCount, Consistent, AfterWriter, CanMove;
    if IsWriterStep(step) {
      WriterStepKeeps(s, step);
    } else if step.Receive? {
      assert s'.taken + s'.channel == s.taken + s.channel;
    }
  }

  lemma WriterStepKeeps(s: State, step: Step)
    requires Invariant(s) && IsWriterStep(step)
    requires step.i < |s.writers| && CanMove(s.writers[step.i], step)
    ensures Invariant(AfterWriter(s, step.i, step))
  {
    hide Marks, Messages, SentCount, Consistent, MarksOf, Moved, CollectorOk;
    var i := step.i;
    var w := s.writers[i];
    WriterConsistent(w, step);
    WriterMarks(w, step);
    MarksAfter(s.writers, i, step);
    SentCountUpdate(s.writers, i, Moved(w, step));
    if step.Send? {
      SentOne(s, w.phase.r);
    }
    CollectorSame(s, AfterWriter(s, i, step));
  }

  lemma CollectorSame(s: State, s': State)
    requires CollectorOk(s) && |s'.writers| == |s.writers|
    requires s'.taken == s.taken && s'.collector == s.collector && s'.dropped == s.dropped
    ensures CollectorOk(s')
  {
  }

  lemma SentOne(s: State, r: Result)
    ensures Messages(s.taken + (s.channel + [r])) == Messages(s.taken + s.channel) + multiset{Message(r)}
  {
    var all := s.taken + (s.channel + [r]);
    assert all[..|all| - 1] == s.taken + s.channel;
  }

  // ---- every run ----

  /** A run: a start and any interleaving of steps. */
  ghost predicate Run(run: seq<State>) {
    run != [] && Start(run[0]) && forall k: nat :: k + 1 < |run| ==> StepAt(run, k)
  }

  ghost predicate StepAt(run: seq<State>, k: nat)
    requires k + 1 < |run|
  {
    Follows(run[k], run[k + 1])
  }

  ghost predicate Follows(s: State, s': State) {
    exists step :: Next(s, s', step)
  }

  lemma {:induction false} RunInvariant(run: seq<State>, k: nat)
    requires Run(run) && k < |run|
    ensures Invariant(run[k]) && |run[k].writers| == |run[0].writers| && run[k].dropped == run[0].dropped
  {
    hide Start, Invariant, Next;
    if k == 0 {
      StartInvariant(run[0]);
    } else {
      RunInvariant(run, k - 1);
      assert StepAt(run, k - 1);
      var step :| Next(run[k - 1], run[k], step);
      StepKeeps(run[k - 1], run[k], step);
      SameBatch(run[k - 1], run[k], step);
    }
  }

  lemma SameBatch(s: State, s': State, step: Step)
    requires Next(s, s', step)
    ensures |s'.writers| == |s.writers| && s'.dropped == s.dropped
  {
  }

  /** No writer ever blocks: whoever has a result to send finds room on the channel, also after the caller is gone. */
  lemma NeverBlocks(run: seq<State>, k: nat, i: nat)
    requires Run(run) && k < |run| && i < |run[k].writers| && run[k].writers[i].phase.Counted?
    ensures HasRoom(run[k]) && Next(run[k], AfterWriter(run[k], i, Send(i)), Send(i))
  {
    hide Run;
    RunInvariant(run, k);
    SentAtMost(run[k].writers);
  }

  /** A nil return means that every shard write succeeded and that nothing was dropped. */
  lemma NilMeansWritten(run: seq<State>, k: nat)
    requires Run(run) && k < |run| && run[k].collector == Returned(Nil)
    ensures run[k].dropped == 0
    ensures forall i :: 0 <= i < |run[k].writers| ==>
      var w := run[k].writers[i];
      w.phase == Sent(Nil) && w.answers != [] && w.answers[|w.answers| - 1] == Written
  {
    hide Run;
    var s := run[k];
    RunInvariant(run, k);
    SentAtMost(s.writers);
    assert s.taken + s.channel == s.taken;
    forall i | 0 <= i < |s.writers|
      ensures s.writers[i].phase == Sent(Nil)
    {
      MarkPresent(s.writers, i);
      var r := s.writers[i].phase.r;
      assert Messages(s.taken)[Message(r)] > 0;
      OnlyNil(s.taken, r);
    }
  }

  lemma {:induction false} MarkPresent(ws: seq<Writer>, i: nat)
    requires i < |ws| && ws[i].phase.Sent?
    ensures Marks(ws)[Message(ws[i].phase.r)] > 0
  {
    if i > 0 {
      MarkPresent(ws[1..], i - 1);
    }
  }

  lemma {:induction false} OnlyNil(rs: seq<Result>, r: Result)
    requires Messages(rs)[Message(r)] > 0 && forall i :: 0 <= i < |rs| ==> rs[i].Nil?
    ensures r.Nil?
  {
    if rs != [] && rs[|rs| - 1] != r {
      OnlyNil(rs[..|rs| - 1], r);
    }
  }

  /** The number of writers that have counted their result, by result. */
  function Finished(ws: seq<Writer>, nil: bool): nat {
    if ws == [] then 0
    else (if (ws[0].phase.Counted? || ws[0].phase.Sent?) && ws[0].phase.r.Nil? == nil then 1 else 0) + Finished(ws[1..], nil)
  }

  lemma FinishedMark(w: Writer)
    ensures var done := w.phase.Counted? || w.phase.Sent?;
      && MarksOf(w)[Ok] == (if done && w.phase.r.Nil? then 1 else 0)
      && MarksOf(w)[Err] == (if done && !w.phase.r.Nil? then 1 else 0)
  {
  }

  lemma {:induction false} FinishedMarks(ws: seq<Writer>)
    ensures Finished(ws, true) == Marks(ws)[Ok] && Finished(ws, false) == Marks(ws)[Err]
  {
    hide MarksOf;
    if ws != [] {
      FinishedMarks(ws[1..]);
      FinishedMark(ws[0]);
    }
  }

  /** Each finished write has bumped exactly one of WriteOK and WriteErr, the one for its result. */
  lemma CountedOnce(run: seq<State>, k: nat)
    requires Run(run) && k < |run|
    ensures run[k].writeOK == Finished(run[k].writers, true)
    ensures run[k].writeErr == Finished(run[k].writers, false)
  {
    hide Run;
    RunInvariant(run, k);
    FinishedMarks(run[k].writers);
  }

  /** The store is asked at most twice for a shard, and a second time only if the first answer was neither a success nor a partial write. */
  lemma AtMostTwo(run: seq<State>, k: nat, i: nat)
    requires Run(run) && k < |run| && i < |run[k].writers|
    ensures var answers := run[k].writers[i].answers;
      |answers| <= 2 && (|answers| == 2 ==> !answers[0].Written? && !answers[0].PartialWrite?)
  {
    hide Run;
    RunInvariant(run, k);
    assert Consistent(run[k].writers[i]);
  }
}
