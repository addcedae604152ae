/**
  Any number of Explorer threads in `MenuCache::menuItems`, step by step: the lock is held across
  the request, and every read and write of a shared field is a step of its own.
 */
module CacheThreads {
  import opened Options
  import opened Splitting
  import opened MenuList
  import opened MenuCaches

  type ThreadId = nat

  /** Where a thread is in a call. */
  datatype Pc =
    | Idle
    | Waiting(files: Selection)
    | Checking(files: Selection)
    | Comparing(files: Selection)
    | Answering(files: Selection)
    | Fetching(files: Selection)
    | WritingFiles(files: Selection, fetched: Menu)
    | WritingItems(files: Selection, fetched: Menu)
    | Leaving(files: Selection, fetched: Menu, requested: bool, answer: Menu)

  /** A call that has returned. */
  datatype Done = Done(thread: ThreadId, query: Query, answer: Menu)

  /** `_mutex`, `_files`, `_menuItems`, the threads; what was returned, and the requests that were sent. */
  datatype State = State(
    threads: map<ThreadId, Pc>, lock: Option<ThreadId>, files: Selection, menuItems: Option<Menu>,
    done: seq<Done>, sent: seq<Selection>)

  const INITIAL := State(map[], None, [], None, [], [])

  datatype Step =
    | Call(t: ThreadId, files: Selection)
    | Acquire(t: ThreadId)
    | CheckItems(t: ThreadId)
    | CompareFiles(t: ThreadId)
    | ReadItems(t: ThreadId)
    | Receive(t: ThreadId, fetched: Menu)
    | WriteFiles(t: ThreadId)
    | WriteItems(t: ThreadId)
    | Release(t: ThreadId)

  function At(s: State, t: ThreadId): Pc {
    if t in s.threads then s.threads[t] else Idle
  }

  function Go(s: State, t: ThreadId, pc: Pc): State {
    s.(threads := s.threads[t := pc])
  }

  function Send(s: State, t: ThreadId, pc: Pc): State
    requires !pc.Idle?
  {
    Go(s, t, Fetching(pc.files)).(sent := s.sent + [pc.files])
  }

  predicate Enabled(s: State, step: Step) {
    match step
    case Call(t, _) => At(s, t).Idle?
    case Acquire(t) => At(s, t).Waiting? && s.lock.None?
    case CheckItems(t) => At(s, t).Checking?
    case CompareFiles(t) => At(s, t).Comparing?
    case ReadItems(t) => At(s, t).Answering?
    case Receive(t, _) => At(s, t).Fetching?
    case WriteFiles(t) => At(s, t).WritingFiles?
    case WriteItems(t) => At(s, t).WritingItems?
    case Release(t) => At(s, t).Leaving?
  }

  function Do(s: State, step: Step): State
    requires Enabled(s, step)
  {
    var pc := At(s, step.t);
    match step
    case Call(t, files) => Go(s, t, Waiting(files))
    case Acquire(t) => Go(s, t, Checking(pc.files)).(lock := Some(t))
    case CheckItems(t) =>
      if pc.files == [] then Go(s, t, Answering(pc.files))
      else if s.menuItems.Some? then Go(s, t, Comparing(pc.files))
      else Send(s, t, pc)
    case CompareFiles(t) => if pc.files == s.files then Go(s, t, Answering(pc.files)) else Send(s, t, pc)
    case ReadItems(t) =>
      Go(s, t, Leaving(pc.files, [], false, if s.menuItems.Some? then s.menuItems.value else []))
    case Receive(t, fetched) => Go(s, t, WritingFiles(pc.files, fetched))
    case WriteFiles(t) => Go(s, t, WritingItems(pc.files, pc.fetched)).(files := pc.files)
    case WriteItems(t) =>
      var items := EraseSeparators(pc.fetched);
      Go(s, t, Leaving(pc.files, pc.fetched, true, items)).(menuItems := Some(items))
    case Release(t) =>
      Go(s, t, Idle).(lock := None, done := s.done + [Done(t, Query(pc.files, pc.fetched), pc.answer)])
  }

  /** The state after the steps, if each of them is enabled in its turn. */
  function Run(steps: seq<Step>): (s: Option<State>) {
    if steps == [] then Some(INITIAL)
    else
      var s := Run(Front(steps));
      if s.None? || !Enabled(s.value, Last(steps)) then None else Some(Do(s.value, Last(steps)))
  }

  // --------------------------------------------------------- the invariant

  predicate Critical(pc: Pc) {
    !pc.Idle? && !pc.Waiting?
  }

  function Queries(done: seq<Done>): (queries: seq<Query>)
    ensures |queries| == |done| && forall i :: 0 <= i < |done| ==> queries[i] == done[i].query
  {
    seq(|done|, i requires 0 <= i < |done| => done[i].query)
  }

  /** The sequential cache after the calls that returned, in the order they held the lock. */
  function Sequential(s: State): Cache {
    After(EMPTY_CACHE, Queries(s.done))
  }

  ghost predicate MutualExclusion(s: State) {
    forall t: ThreadId :: Critical(At(s, t)) <==> s.lock == Some(t)
  }

  /** The thread that holds the lock. */
  function Holder(s: State): Pc {
    if s.lock.None? then Idle else At(s, s.lock.value)
  }

  /** The shared fields are the sequential cache, except for what the holder has written. */
  ghost predicate FieldsMatch(s: State) {
    var pc, c := Holder(s), Sequential(s);
    match pc
    case WritingItems(files, _) => s.files == files && s.menuItems == c.menuItems
    case Leaving(files, fetched, _, _) => Cache(s.files, s.menuItems) == Lookup(c, files, fetched).0
    case _ => Cache(s.files, s.menuItems) == c
  }

  /** The holder does what the sequential call does. */
  ghost predicate HolderMatches(s: State) {
    var pc, c := Holder(s), Sequential(s);
    match pc
    case Comparing(files) => files != [] && c.menuItems.Some?
    case Answering(files) => Hit(c, files)
    case Fetching(files) => !Hit(c, files)
    case WritingFiles(files, _) => !Hit(c, files)
    case WritingItems(files, _) => !Hit(c, files)
    case Leaving(files, fetched, requested, answer) =>
      answer == Lookup(c, files, fetched).1 && requested == !Hit(c, files)
    case _ => true
  }

  /** Whether the holder has sent a request that is not yet accounted for. */
  predicate Outstanding(pc: Pc) {
    pc.Fetching? || pc.WritingFiles? || pc.WritingItems? || (pc.Leaving? && pc.requested)
  }

  function OutstandingOf(pc: Pc): seq<Selection> {
    if Outstanding(pc) then [pc.files] else []
  }

  ghost predicate RequestsMatch(s: State) {
    s.sent == RequestsOf(EMPTY_CACHE, Queries(s.done)) + OutstandingOf(Holder(s))
  }

  ghost predicate AnswersMatch(s: State) {
    forall i :: 0 <= i < |s.done| ==>
      s.done[i].answer == AnswerTo(EMPTY_CACHE, Queries(s.done), i)
  }

  ghost predicate Invariant(s: State) {
    && MutualExclusion(s) && FieldsMatch(s) && HolderMatches(s)
    && RequestsMatch(s) && AnswersMatch(s)
  }

  lemma GoesOnlyThere(s: State, step: Step)
    requires Enabled(s, step)
    ensures forall u: ThreadId :: u != step.t ==> At(Do(s, step), u) == At(s, u)
  {
  }

  lemma ExclusionKept(s: State, step: Step)
    requires MutualExclusion(s) && Enabled(s, step)
    ensures MutualExclusion(Do(s, step))
    ensures step.Acquire? || step.Release? || Do(s, step).lock == s.lock
    ensures step.Call? || step.Acquire? || s.lock == Some(step.t)
  {
    GoesOnlyThere(s, step);
    assert Critical(At(s, step.t)) <==> s.lock == Some(step.t);
  }

  /** A returning call is appended to the sequential run. */
  lemma ReturnKept(s: State, step: Step)
    requires Invariant(s) && step.Release? && Enabled(s, step)
    ensures Invariant(Do(s, step))
  {
    ExclusionKept(s, step);
    GoesOnlyThere(s, step);
    var s' := Do(s, step);
    var qs, qs' := Queries(s.done), Queries(s'.done);
    assert Front(qs') == qs;
    forall i | 0 <= i < |s'.done|
      ensures s'.done[i].answer == AnswerTo(EMPTY_CACHE, qs', i)
    {
      assert qs'[..i] == qs[..i];
      if i < |s.done| {
        assert s'.done[i] == s.done[i];
      } else {
        assert qs[..i] == qs;
      }
    }
  }

  lemma InnerStepKept(s: State, step: Step)
    requires Invariant(s) && Enabled(s, step) && !step.Release?
    ensures Invariant(Do(s, step))
  {
    ExclusionKept(s, step);
    GoesOnlyThere(s, step);
    assert Do(s, step).done == s.done;
    if step.Call? && s.lock.Some? {
      assert Critical(Holder(s));
    }
  }

  lemma {:induction false} RunKeepsInvariant(steps: seq<Step>)
    requires Run(steps).Some?
    ensures Invariant(Run(steps).value)
  {
    if steps != [] {
      var s, step := Run(Front(steps)).value, Last(steps);
      RunKeepsInvariant(Front(steps));
      if step.Release? {
        ReturnKept(s, step);
      } else {
        InnerStepKept(s, step);
      }
    }
  }

  // ------------------------------------------------------------- theorems

  /**
    Linearizability: in every run, each returned answer is the answer of the sequential cache
    run in lock order.
   */
  lemma Linearizable(steps: seq<Step>, i: nat)
    requires Run(steps).Some? && i < |Run(steps).value.done|
    ensures var done := Run(steps).value.done; done[i].answer == AnswerTo(EMPTY_CACHE, Queries(done), i)
  {
    RunKeepsInvariant(steps);
  }

  /** That order respects real time: what had returned at any moment comes before all other calls. */
  lemma {:induction false} ReturnedComesFirst(steps: seq<Step>, m: nat)
    requires Run(steps).Some? && m <= |steps|
    ensures Run(steps[..m]).Some? && Run(steps[..m]).value.done <= Run(steps).value.done
    decreases |steps| - m
  {
    if m == |steps| {
      assert steps[..m] == steps;
    } else {
      ReturnedComesFirst(steps, m + 1);
      assert Front(steps[..m + 1]) == steps[..m];
    }
  }

  /** The selections a thread asks for, in order. */
  function CallsOf(steps: seq<Step>, t: ThreadId): seq<Selection> {
    if steps == [] then []
    else
      var step := Last(steps);
      CallsOf(Front(steps), t) + (if step.Call? && step.t == t then [step.files] else [])
  }

  /** The selections a thread has received an answer for, in order. */
  function ReturnsOf(done: seq<Done>, t: ThreadId): seq<Selection> {
    if done == [] then []
    else ReturnsOf(Front(done), t) + (if Last(done).thread == t then [Last(done).query.files] else [])
  }

  /** What a thread has been answered for, and the call it is in. */
  function AskedBy(s: State, t: ThreadId): seq<Selection> {
    ReturnsOf(s.done, t) + if At(s, t).Idle? then [] else [At(s, t).files]
  }

  lemma AnswerKept(s: State, step: Step, t: ThreadId)
    requires Enabled(s, step)
    ensures AskedBy(Do(s, step), t) == AskedBy(s, t) + if step.Call? && step.t == t then [step.files] else []
  {
    GoesOnlyThere(s, step);
    if step.Release? {
      assert Front(Do(s, step).done) == s.done;
    }
  }

  /** Every thread is answered what it asked, in its own order; at most its last call is not yet. */
  lemma {:induction false} EveryCallIsAnswered(steps: seq<Step>, t: ThreadId)
    requires Run(steps).Some?
    ensures var s := Run(steps).value;
            CallsOf(steps, t) == ReturnsOf(s.done, t) + if At(s, t).Idle? then [] else [At(s, t).files]
  {
    if steps != [] {
      EveryCallIsAnswered(Front(steps), t);
      AnswerKept(Run(Front(steps)).value, Last(steps), t);
    }
  }

  /** The replies the client gives, in order. */
  function RepliesIn(steps: seq<Step>): seq<Menu> {
    if steps == [] then []
    else RepliesIn(Front(steps)) + (if Last(steps).Receive? then [Last(steps).fetched] else [])
  }

  /** The reply the holder has received, not yet accounted for. */
  function ReceivedBy(pc: Pc): seq<Menu> {
    if pc.WritingFiles? || pc.WritingItems? || (pc.Leaving? && pc.requested) then [pc.fetched] else []
  }

  /** The replies accounted for so far. */
  function Replies(s: State): seq<Menu> {
    RepliesTo(EMPTY_CACHE, Queries(s.done)) + ReceivedBy(Holder(s))
  }

  lemma HolderReplyKept(s: State, step: Step)
    requires Invariant(s) && Enabled(s, step) && !step.Release?
    ensures var s' := Do(s, step);
            && s'.done == s.done
            && ReceivedBy(Holder(s')) == ReceivedBy(Holder(s)) + if step.Receive? then [step.fetched] else []
  {
    ExclusionKept(s, step);
    GoesOnlyThere(s, step);
  }

  lemma ReplyOfReturn(s: State, step: Step)
    requires Invariant(s) && step.Release? && Enabled(s, step)
    ensures Replies(Do(s, step)) == Replies(s)
  {
    assert Front(Queries(Do(s, step).done)) == Queries(s.done);
    assert Critical(At(s, step.t)) <==> s.lock == Some(step.t);
  }

  lemma ReplyKept(s: State, step: Step)
    requires Invariant(s) && Enabled(s, step)
    ensures Replies(Do(s, step)) == Replies(s) + if step.Receive? then [step.fetched] else []
  {
    if step.Release? {
      ReplyOfReturn(s, step);
    } else {
      HolderReplyKept(s, step);
    }
  }

  /** The run's calls are answered with the client's replies, and with no others. */
  lemma {:induction false} RepliesAreUsed(steps: seq<Step>)
    requires Run(steps).Some?
    ensures RepliesIn(steps) == Replies(Run(steps).value)
  {
    if steps != [] {
      RepliesAreUsed(Front(steps));
      RunKeepsInvariant(Front(steps));
      ReplyKept(Run(Front(steps)).value, Last(steps));
    }
  }

  /** At most one menu request is in flight. */
  lemma OneRequestInFlight(steps: seq<Step>, t: ThreadId, u: ThreadId)
    requires Run(steps).Some?
    requires At(Run(steps).value, t).Fetching? && At(Run(steps).value, u).Fetching?
    ensures t == u
  {
    RunKeepsInvariant(steps);
    var s := Run(steps).value;
    assert Critical(At(s, t)) && Critical(At(s, u));
  }

  /**
    In every run a non-empty selection receives, without its separators, the client's reply to a
    request for exactly that selection.
   */
  lemma AnswersAreForTheSelection(steps: seq<Step>, i: nat) returns (n: nat)
    requires Run(steps).Some? && i < |Run(steps).value.done|
    requires Run(steps).value.done[i].query.files != []
    ensures var s := Run(steps).value;
            && n < |s.sent| && s.sent[n] == s.done[i].query.files
            && n < |RepliesIn(steps)| && s.done[i].answer == EraseSeparators(RepliesIn(steps)[n])
  {
    RunKeepsInvariant(steps);
    RepliesAreUsed(steps);
    Linearizable(steps, i);
    var queries := Queries(Run(steps).value.done);
    AnswerWasFetchedForSelection(queries, i);
    var j: nat :| LastRequest(queries, j, i + 1) && queries[j].files == queries[i].files
               && AnswerTo(EMPTY_CACHE, queries, i) == EraseSeparators(queries[j].fetched);
    RequestOfMiss(EMPTY_CACHE, queries, j);
    n := |RequestsOf(EMPTY_CACHE, queries[..j])|;
  }

  /**
    Whatever the interleaving, the client is asked about each change of the selection in lock
    order, and then about the selection of a call that has not returned yet.
   */
  lemma RequestsSent(steps: seq<Step>)
    requires Run(steps).Some?
    ensures var s := Run(steps).value;
            s.sent == WithoutRepeats(Selections(Queries(s.done))) + OutstandingOf(Holder(s))
  {
    RunKeepsInvariant(steps);
    RequestsAreChanges(Queries(Run(steps).value.done));
  }

  /** No deadlock: as long as a call is running, some running call can make a step. */
  lemma SomeCallProceeds(steps: seq<Step>, t: ThreadId)
    requires Run(steps).Some? && !At(Run(steps).value, t).Idle?
    ensures exists step: Step :: !step.Call? && Enabled(Run(steps).value, step)
  {
    RunKeepsInvariant(steps);
    var s := Run(steps).value;
    var u := if s.lock.Some? then s.lock.value else t;
    assert Critical(At(s, u)) <==> s.lock == Some(u);
    var pc := At(s, u);
    var step :=
      if pc.Checking? then CheckItems(u)
      else if pc.Comparing? then CompareFiles(u)
      else if pc.Answering? then ReadItems(u)
      else if pc.Fetching? then Receive(u, [])
      else if pc.WritingFiles? then WriteFiles(u)
      else if pc.WritingItems? then WriteItems(u)
      else if pc.Leaving? then Release(u)
      else Acquire(u);
    assert Enabled(s, step);
  }
}
