/** `EnumCommands`: the cursor over the sub commands that Explorer enumerates. */
module Enumerators {
  import opened Splitting

  datatype Hresult = S_OK | S_FALSE | E_FAIL | E_NOTIMPL | E_OUTOFMEMORY

  /** One call of the enumerator. */
  datatype Op = Next(count: nat) | Skip(count: nat) | Reset

  function Min(a: nat, b: nat): nat { if a < b then a else b }

  /** How many commands a call advances over. */
  function Advance(size: nat, current: nat, count: nat): nat
    requires current <= size
  {
    Min(count, size - current)
  }

  class EnumCommands<T> {
    const commands: seq<T>
    var current: nat

    ghost predicate Valid()
      reads this
    {
      current <= |commands|
    }

    constructor (commands: seq<T>)
      ensures this.commands == commands && current == 0 && Valid()
    {
      this.commands := commands;
      current := 0;
    }

    method Next(count: nat, out: array<T>) returns (hr: Hresult, fetched: nat)
      requires Valid() && count <= out.Length
      modifies this`current, out
      ensures Valid()
      ensures fetched == Advance(|commands|, old(current), count) && current == old(current) + fetched
      ensures out[..fetched] == commands[old(current)..current] && out[fetched..] == old(out[fetched..])
      ensures hr == if fetched == count then S_OK else S_FALSE
    {
      var i := 0;
      while i < count && current < |commands|
        invariant i <= count && current == old(current) + i && current <= |commands|
        invariant out[..i] == commands[old(current)..current]
        invariant out[i..] == old(out[i..])
      {
        out[i] := commands[current];
        i, current := i + 1, current + 1;
      }
      fetched := i;
      hr := if i == count then S_OK else S_FALSE;
    }

    method Skip(count: nat) returns (hr: Hresult)
      requires Valid()
      modifies this`current
      ensures Valid()
      ensures current == old(current) + Advance(|commands|, old(current), count)
      ensures hr == if current == old(current) + count then S_OK else S_FALSE
    {
      var skipped := if count < |commands| - current then count else |commands| - current;
      current := current + skipped;
      hr := if skipped == count then S_OK else S_FALSE;
    }

    method Reset() returns (hr: Hresult)
      modifies this`current
      ensures current == 0 && Valid() && hr == S_OK
    {
      current := 0;
      hr := S_OK;
    }
  }

  // ------------------------------------------------------------------ runs

  /** The cursor, the commands delivered and those skipped since the last reset. */
  datatype Cursor = Cursor(current: nat, delivered: seq<nat>, skipped: seq<nat>)

  function Interval(from: nat, to: nat): (s: seq<nat>)
    requires from <= to
    ensures |s| == to - from && forall i :: 0 <= i < |s| ==> s[i] == from + i
  {
    seq(to - from, i requires 0 <= i < to - from => from + i)
  }

  function Apply(size: nat, c: Cursor, op: Op): (r: Cursor)
    requires c.current <= size
    ensures r.current <= size
  {
    match op
    case Next(count) =>
      var to := c.current + Advance(size, c.current, count);
      Cursor(to, c.delivered + Interval(c.current, to), c.skipped)
    case Skip(count) =>
      var to := c.current + Advance(size, c.current, count);
      Cursor(to, c.delivered, c.skipped + Interval(c.current, to))
    case Reset => Cursor(0, [], [])
  }

  function RunOps(size: nat, ops: seq<Op>): (c: Cursor)
    ensures c.current <= size
  {
    if ops == [] then Cursor(0, [], []) else Apply(size, RunOps(size, Front(ops)), Last(ops))
  }

  /** The call returns S_OK. */
  predicate Served(size: nat, c: Cursor, op: Op)
    requires c.current <= size
  {
    op.Reset? || Advance(size, c.current, op.count) == op.count
  }

  /** What was delivered is in order, and is exactly what lies before the cursor and was not skipped. */
  ghost predicate InOrder(c: Cursor) {
    && (forall i, j :: 0 <= i < j < |c.delivered| ==> c.delivered[i] < c.delivered[j])
    && (forall k: nat :: k in c.delivered <==> k < c.current && k !in c.skipped)
    && (forall k: nat :: k in c.skipped ==> k < c.current)
  }

  lemma StepKeepsOrder(size: nat, c: Cursor, op: Op)
    requires c.current <= size && InOrder(c)
    ensures InOrder(Apply(size, c, op))
  {
    if !op.Reset? {
      var to := c.current + Advance(size, c.current, op.count);
      var more := Interval(c.current, to);
      IntervalMembers(c.current, to);
      assert forall i :: 0 <= i < |c.delivered| ==> c.delivered[i] in c.delivered;
      assert forall i :: 0 <= i < |more| ==> more[i] in more;
    }
  }

  /** Over every sequence of calls, since the last reset. */
  lemma {:induction false} DeliveredInOrder(size: nat, ops: seq<Op>)
    ensures InOrder(RunOps(size, ops))
  {
    if ops != [] {
      DeliveredInOrder(size, Front(ops));
      StepKeepsOrder(size, RunOps(size, Front(ops)), Last(ops));
    }
  }

  lemma IntervalMembers(from: nat, to: nat)
    requires from <= to
    ensures forall k :: k in Interval(from, to) <==> from <= k < to
  {
    forall k | from <= k < to
      ensures k in Interval(from, to)
    {
      assert Interval(from, to)[k - from] == k;
    }
  }

  predicate Within(indices: seq<nat>, size: nat) {
    forall i :: 0 <= i < |indices| ==> indices[i] < size
  }

  /** The commands at the given indices. */
  function At<T>(commands: seq<T>, indices: seq<nat>): (r: seq<T>)
    requires Within(indices, |commands|)
    ensures |r| == |indices| && forall i :: 0 <= i < |r| ==> r[i] == commands[indices[i]]
  {
    seq(|indices|, i requires 0 <= i < |indices| => commands[indices[i]])
  }

  /** What a call delivers. */
  function Fetched<T>(commands: seq<T>, from: nat, op: Op): seq<T>
    requires from <= |commands|
  {
    if op.Next? then commands[from..from + Advance(|commands|, from, op.count)] else []
  }

  lemma DeliveredStep<T>(commands: seq<T>, c: Cursor, op: Op)
    requires c.current <= |commands| && Within(c.delivered, |commands|)
    ensures var r := Apply(|commands|, c, op);
            && Within(r.delivered, |commands|)
            && At(commands, r.delivered)
               == (if op.Reset? then [] else At(commands, c.delivered) + Fetched(commands, c.current, op))
  {
  }

  /** Executes a call; `filler` is what Explorer's array holds before. */
  method Execute<T>(e: EnumCommands<T>, op: Op, filler: T) returns (hr: Hresult, fetched: seq<T>)
    requires e.Valid()
    modifies e
    ensures forall c: Cursor :: c.current == old(e.current) ==>
              && e.current == Apply(|e.commands|, c, op).current
              && (hr == S_OK <==> Served(|e.commands|, c, op))
    ensures fetched == Fetched(e.commands, old(e.current), op)
  {
    fetched := [];
    match op
    case Next(count) =>
      var out := new T[count](i => filler);
      var n;
      hr, n := e.Next(count, out);
      fetched := out[..n];
    case Skip(count) =>
      hr := e.Skip(count);
    case Reset =>
      hr := e.Reset();
  }

  /** The calls return S_OK exactly where the runs serve the full count. */
  ghost predicate ResultsMatch(size: nat, ops: seq<Op>, results: seq<Hresult>, n: nat) {
    && n <= |ops| && n == |results|
    && forall i :: 0 <= i < n ==> (results[i] == S_OK <==> Served(size, RunOps(size, ops[..i]), ops[i]))
  }

  lemma ResultsStep(size: nat, ops: seq<Op>, results: seq<Hresult>, hr: Hresult)
    requires ResultsMatch(size, ops, results, |results|) && |results| < |ops|
    requires var n := |results|; hr == S_OK <==> Served(size, RunOps(size, ops[..n]), ops[n])
    ensures ResultsMatch(size, ops, results + [hr], |results| + 1)
  {
  }

  lemma RunStep(size: nat, ops: seq<Op>, i: nat)
    requires i < |ops|
    ensures RunOps(size, ops[..i + 1]) == Apply(size, RunOps(size, ops[..i]), ops[i])
  {
    assert Front(ops[..i + 1]) == ops[..i];
  }

  /**
    The class does what the runs say: whatever calls Explorer makes on a new enumerator, the
    cursor, the commands it receives since its last reset, and the calls that return S_OK.
   */
  method ExecuteAll<T>(e: EnumCommands<T>, ops: seq<Op>, filler: T)
    returns (delivered: seq<T>, results: seq<Hresult>)
    requires e.current == 0
    modifies e
    ensures var c := RunOps(|e.commands|, ops);
            e.current == c.current && Within(c.delivered, |e.commands|) && delivered == At(e.commands, c.delivered)
    ensures ResultsMatch(|e.commands|, ops, results, |ops|)
  {
    delivered, results := [], [];
    ghost var c := Cursor(0, [], []);
    for i := 0 to |ops|
      invariant c == RunOps(|e.commands|, ops[..i]) && e.current == c.current
      invariant Within(c.delivered, |e.commands|) && delivered == At(e.commands, c.delivered)
      invariant ResultsMatch(|e.commands|, ops, results, i)
    {
      RunStep(|e.commands|, ops, i);
      DeliveredStep(e.commands, c, ops[i]);
      var hr, fetched := Execute(e, ops[i], filler);
      ResultsStep(|e.commands|, ops, results, hr);
      delivered := if ops[i].Reset? then [] else delivered + fetched;
      results := results + [hr];
      c := Apply(|e.commands|, c, ops[i]);
    }
    assert ops[..|ops|] == ops;
  }

  /** Skipping twice is skipping the sum, in state and in outcome. */
  lemma SkipsCompose(size: nat, c: Cursor, a: nat, b: nat)
    requires c.current <= size
    ensures var first := Apply(size, c, Op.Skip(a));
            && Apply(size, first, Op.Skip(b)) == Apply(size, c, Op.Skip(a + b))
            && (Served(size, c, Op.Skip(a + b)) <==> Served(size, c, Op.Skip(a)) && Served(size, first, Op.Skip(b)))
  {
    var first := Apply(size, c, Op.Skip(a));
    var second, both := Apply(size, first, Op.Skip(b)), Apply(size, c, Op.Skip(a + b));
    assert second.current == both.current;
    assert second.skipped == both.skipped;
  }

  /** S_OK means that the full count was served; otherwise the end was reached. */
  lemma ShortCallsReachTheEnd(size: nat, c: Cursor, op: Op)
    requires c.current <= size && !op.Reset?
    ensures Served(size, c, op) <==> Apply(size, c, op).current == c.current + op.count
    ensures !Served(size, c, op) ==> Apply(size, c, op).current == size
  {
  }

  /** Calls up to the end deliver every command that was not skipped. */
  lemma NothingIsLost(size: nat, ops: seq<Op>)
    requires RunOps(size, ops).current == size
    ensures var c := RunOps(size, ops); forall k :: 0 <= k < size ==> (k in c.delivered <==> k !in c.skipped)
  {
    DeliveredInOrder(size, ops);
  }
}
