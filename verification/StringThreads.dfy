/**
  Any number of Explorer threads in `MenuCache::string`, step by step. It has a lock and a field of
  its own, so this system and that of the menu run side by side.
 */
module StringThreads {
  import opened Options
  import opened Splitting
  import opened Utf
  import opened MenuCaches

  type ThreadId = nat
  type Strings = map<wstring, wstring>

  /** Where a thread is in a call. */
  datatype Pc =
    | Idle
    | Waiting(key: wstring)
    | Checking(key: wstring)
    | Fetching(key: wstring)
    | Storing(key: wstring, fetched: Strings)
    | Searching(key: wstring, fetched: Strings)
    | Leaving(key: wstring, fetched: Strings, answer: wstring)

  /** A call that has returned. */
  datatype Done = Done(thread: ThreadId, query: StringQuery, answer: wstring)

  /** `_stringsMutex`, `_strings`, the threads; what was returned, and how many requests were sent. */
  datatype State = State(
    threads: map<ThreadId, Pc>, lock: Option<ThreadId>, strings: Strings, done: seq<Done>, sent: nat)

  const INITIAL := State(map[], None, map[], [], 0)

  datatype Step =
    | Call(t: ThreadId, key: wstring)
    | Acquire(t: ThreadId)
    | Check(t: ThreadId)
    | Receive(t: ThreadId, fetched: Strings)
    | Store(t: ThreadId)
    | Search(t: ThreadId)
    | Release(t: ThreadId)

  function At(s: State, t: ThreadId): Pc {
    if t in s.threads then s.threads[t] else Idle
  }

  function Go(s: State, t: ThreadId, pc: Pc): State {
    s.(threads := s.threads[t := pc])
  }

  predicate Enabled(s: State, step: Step) {
    match step
    case Call(t, _) => At(s, t).Idle?
    case Acquire(t) => At(s, t).Waiting? && s.lock.None?
    case Check(t) => At(s, t).Checking?
    case Receive(t, _) => At(s, t).Fetching?
    case Store(t) => At(s, t).Storing?
    case Search(t) => At(s, t).Searching?
    case Release(t) => At(s, t).Leaving?
  }

  function Do(s: State, step: Step): State
    requires Enabled(s, step)
  {
    var pc := At(s, step.t);
    match step
    case Call(t, key) => Go(s, t, Waiting(key))
    case Acquire(t) => Go(s, t, Checking(pc.key)).(lock := Some(t))
    case Check(t) =>
      if s.strings == map[] then Go(s, t, Fetching(pc.key)).(sent := s.sent + 1)
      else Go(s, t, Searching(pc.key, map[]))
    case Receive(t, fetched) => Go(s, t, Storing(pc.key, fetched))
    case Store(t) => Go(s, t, Searching(pc.key, pc.fetched)).(strings := pc.fetched)
    case Search(t) =>
      var value := if pc.key in s.strings then s.strings[pc.key] else [];
      Go(s, t, Leaving(pc.key, pc.fetched, value))
    case Release(t) =>
      Go(s, t, Idle).(lock := None, done := s.done + [Done(t, StringQuery(pc.key, pc.fetched), pc.answer)])
  }

  /** The state after the steps, if each of them is enabled in its turn. */
  function Run(steps: seq<Step>): (s: Option<State>) {
    if steps == [] then Some(INITIAL)
    else
      var s := Run(Front(steps));
      if s.None? || !Enabled(s.value, Last(steps)) then None else Some(Do(s.value, Last(steps)))
  }

  // --------------------------------------------------------- the invariant

  predicate Critical(pc: Pc) {
    !pc.Idle? && !pc.Waiting?
  }

  function Queries(done: seq<Done>): (queries: seq<StringQuery>)
    ensures |queries| == |done| && forall i :: 0 <= i < |done| ==> queries[i] == done[i].query
  {
    seq(|done|, i requires 0 <= i < |done| => done[i].query)
  }

  /** The strings after the calls that returned, in the order they held the lock. */
  function Sequential(s: State): Strings {
    StringsAfter(map[], Queries(s.done))
  }

  ghost predicate MutualExclusion(s: State) {
    forall t: ThreadId :: Critical(At(s, t)) <==> s.lock == Some(t)
  }

  /** The thread that holds the lock. */
  function Holder(s: State): Pc {
    if s.lock.None? then Idle else At(s, s.lock.value)
  }

  /** The field and the holder are where the sequential call is. */
  ghost predicate HolderMatches(s: State) {
    var pc, c := Holder(s), Sequential(s);
    match pc
    case Fetching(_) => s.strings == c == map[]
    case Storing(_, _) => s.strings == c == map[]
    case Searching(key, fetched) => s.strings == LookupString(c, key, fetched).0
    case Leaving(key, fetched, answer) => (s.strings, answer) == LookupString(c, key, fetched)
    case _ => s.strings == c
  }

  /** Whether the holder's call sends a request, once it has looked. */
  predicate Asks(pc: Pc, c: Strings) {
    c == map[] && (pc.Fetching? || pc.Storing? || pc.Searching? || pc.Leaving?)
  }

  ghost predicate RequestsMatch(s: State) {
    s.sent == StringRequests(Queries(s.done)) + (if Asks(Holder(s), Sequential(s)) then 1 else 0)
  }

  ghost predicate AnswersMatch(s: State) {
    forall i :: 0 <= i < |s.done| ==>
      s.done[i].answer == StringAnswer(Queries(s.done), i)
  }

  ghost predicate Invariant(s: State) {
    MutualExclusion(s) && HolderMatches(s) && RequestsMatch(s) && AnswersMatch(s)
  }

  lemma GoesOnlyThere(s: State, step: Step)
    requires Enabled(s, step)
    ensures forall u: ThreadId :: u != step.t ==> At(Do(s, step), u) == At(s, u)
  {
  }

  lemma ExclusionKept(s: State, step: Step)
    requires MutualExclusion(s) && Enabled(s, step)
    ensures MutualExclusion(Do(s, step))
    ensures step.Acquire? || step.Release? || Do(s, step).lock == s.lock
    ensures step.Call? || step.Acquire? || s.lock == Some(step.t)
  {
    GoesOnlyThere(s, step);
    assert Critical(At(s, step.t)) <==> s.lock == Some(step.t);
  }

  lemma ReturnKept(s: State, step: Step)
    requires Invariant(s) && step.Release? && Enabled(s, step)
    ensures Invariant(Do(s, step))
  {
    ExclusionKept(s, step);
    GoesOnlyThere(s, step);
    var s' := Do(s, step);
    var qs, qs' := Queries(s.done), Queries(s'.done);
    assert Front(qs') == qs;
    forall i | 0 <= i < |s'.done|
      ensures s'.done[i].answer == StringAnswer(qs', i)
    {
      assert qs'[..i] == qs[..i];
      if i < |s.done| {
        assert s'.done[i] == s.done[i];
      } else {
        assert qs[..i] == qs;
      }
    }
  }

  lemma InnerStepKept(s: State, step: Step)
    requires Invariant(s) && Enabled(s, step) && !step.Release?
    ensures Invariant(Do(s, step))
  {
    ExclusionKept(s, step);
    GoesOnlyThere(s, step);
    assert Do(s, step).done == s.done;
    if step.Call? && s.lock.Some? {
      assert Critical(Holder(s));
    }
  }

  lemma {:induction false} RunKeepsInvariant(steps: seq<Step>)
    requires Run(steps).Some?
    ensures Invariant(Run(steps).value)
  {
    if steps != [] {
      var s, step := Run(Front(steps)).value, Last(steps);
      RunKeepsInvariant(Front(steps));
      if step.Release? {
        ReturnKept(s, step);
      } else {
        InnerStepKept(s, step);
      }
    }
  }

  // ------------------------------------------------------------- theorems

  /** What had returned at any moment comes before all other calls. */
  lemma {:induction false} ReturnedComesFirst(steps: seq<Step>, m: nat)
    requires Run(steps).Some? && m <= |steps|
    ensures Run(steps[..m]).Some? && Run(steps[..m]).value.done <= Run(steps).value.done
    decreases |steps| - m
  {
    if m == |steps| {
      assert steps[..m] == steps;
    } else {
      ReturnedComesFirst(steps, m + 1);
      assert Front(steps[..m + 1]) == steps[..m];
    }
  }

  /** The keys a thread asks for, in order. */
  function CallsOf(steps: seq<Step>, t: ThreadId): seq<wstring> {
    if steps == [] then []
    else
      var step := Last(steps);
      CallsOf(Front(steps), t) + (if step.Call? && step.t == t then [step.key] else [])
  }

  /** The keys a thread has received an answer for, in order. */
  function ReturnsOf(done: seq<Done>, t: ThreadId): seq<wstring> {
    if done == [] then []
    else ReturnsOf(Front(done), t) + (if Last(done).thread == t then [Last(done).query.key] else [])
  }

  /** What a thread has been answered for, and the call it is in. */
  function AskedBy(s: State, t: ThreadId): seq<wstring> {
    ReturnsOf(s.done, t) + if At(s, t).Idle? then [] else [At(s, t).key]
  }

  lemma AnswerKept(s: State, step: Step, t: ThreadId)
    requires Enabled(s, step)
    ensures AskedBy(Do(s, step), t) == AskedBy(s, t) + if step.Call? && step.t == t then [step.key] else []
  {
    GoesOnlyThere(s, step);
    if step.Release? {
      assert Front(Do(s, step).done) == s.done;
    }
  }

  /** Every thread is answered what it asked, in its own order; at most its last call is not yet. */
  lemma {:induction false} EveryCallIsAnswered(steps: seq<Step>, t: ThreadId)
    requires Run(steps).Some?
    ensures var s := Run(steps).value;
            CallsOf(steps, t) == ReturnsOf(s.done, t) + if At(s, t).Idle? then [] else [At(s, t).key]
  {
    if steps != [] {
      EveryCallIsAnswered(Front(steps), t);
      AnswerKept(Run(Front(steps)).value, Last(steps), t);
    }
  }

  /** The replies the client gives, in order. */
  function RepliesIn(steps: seq<Step>): seq<Strings> {
    if steps == [] then []
    else RepliesIn(Front(steps)) + (if Last(steps).Receive? then [Last(steps).fetched] else [])
  }

  /** The reply the holder has received, not yet accounted for. */
  function ReceivedBy(pc: Pc, c: Strings): seq<Strings> {
    if c == map[] && (pc.Storing? || pc.Searching? || pc.Leaving?) then [pc.fetched] else []
  }

  /** The replies accounted for so far. */
  function Replies(s: State): seq<Strings> {
    StringReplies(Queries(s.done)) + ReceivedBy(Holder(s), Sequential(s))
  }

  lemma HolderReplyKept(s: State, step: Step)
    requires Invariant(s) && Enabled(s, step) && !step.Release?
    ensures var s' := Do(s, step);
            && s'.done == s.done
            && ReceivedBy(Holder(s'), Sequential(s'))
               == ReceivedBy(Holder(s), Sequential(s)) + if step.Receive? then [step.fetched] else []
  {
    ExclusionKept(s, step);
    GoesOnlyThere(s, step);
  }

  lemma ReplyKept(s: State, step: Step)
    requires Invariant(s) && Enabled(s, step)
    ensures Replies(Do(s, step)) == Replies(s) + if step.Receive? then [step.fetched] else []
  {
    if step.Release? {
      ReplyOfReturn(s, step);
      assert Critical(At(s, step.t)) <==> s.lock == Some(step.t);
    } else {
      HolderReplyKept(s, step);
    }
  }

  lemma ReplyOfReturn(s: State, step: Step)
    requires step.Release? && Enabled(s, step)
    ensures var query := StringQuery(At(s, step.t).key, At(s, step.t).fetched);
            StringReplies(Queries(Do(s, step).done))
            == StringReplies(Queries(s.done)) + if Sequential(s) == map[] then [query.fetched] else []
  {
    assert Front(Queries(Do(s, step).done)) == Queries(s.done);
  }

  lemma {:induction false} RepliesAreUsed(steps: seq<Step>)
    requires Run(steps).Some?
    ensures RepliesIn(steps) == Replies(Run(steps).value)
  {
    if steps != [] {
      RepliesAreUsed(Front(steps));
      RunKeepsInvariant(Front(steps));
      ReplyKept(Run(Front(steps)).value, Last(steps));
    }
  }

  /**
    In every run each lookup is answered as in the sequential run in lock order: from the client's
    first reply that has strings, or with the empty text before it.
   */
  lemma Linearizable(steps: seq<Step>, i: nat) returns (k: nat)
    requires Run(steps).Some? && i < |Run(steps).value.done|
    ensures var done, replies := Run(steps).value.done, RepliesIn(steps);
            && (forall j :: 0 <= j < k && j < |replies| && j < |done| ==> replies[j] == map[])
            && (i >= k ==> k < |replies| && replies[k] != map[])
            && var key := done[i].query.key;
               done[i].answer == if i >= k && key in replies[k] then replies[k][key] else []
  {
    RunKeepsInvariant(steps);
    RepliesAreUsed(steps);
    var queries := Queries(Run(steps).value.done);
    k := FirstProvided(queries);
    StringsAreFirstProvided(queries, i);
    RepliesUntilProvided(queries, |queries|);
    assert queries[..|queries|] == queries;
  }

  /** At most one string request is in flight. */
  lemma OneRequestInFlight(steps: seq<Step>, t: ThreadId, u: ThreadId)
    requires Run(steps).Some?
    requires At(Run(steps).value, t).Fetching? && At(Run(steps).value, u).Fetching?
    ensures t == u
  {
    RunKeepsInvariant(steps);
    var s := Run(steps).value;
    assert Critical(At(s, t)) && Critical(At(s, u));
  }

  /** Whatever the interleaving, requests stop with the first one that provides strings. */
  lemma RequestsStop(steps: seq<Step>)
    requires Run(steps).Some?
    ensures var s := Run(steps).value;
            var n, k := |s.done|, FirstProvided(Queries(s.done));
            s.sent == if k < n then k + 1 else n + (if Asks(Holder(s), map[]) then 1 else 0)
  {
    RunKeepsInvariant(steps);
    var queries := Queries(Run(steps).value.done);
    RequestsUntilProvided(queries, |queries|);
    StringsBefore(queries, |queries|);
    assert queries[..|queries|] == queries;
  }
}
