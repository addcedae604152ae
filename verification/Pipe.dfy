/**
  A connection to the client as values: what the kernel does with each overlapped operation,
  and the functions that `readLine` and `request` compute. A peer is a finite script of such
  operations; every theorem quantifies over all scripts, so over every way the kernel can
  cut, delay, fail, time out or drop a transfer.
 */
module Pipe {
  import opened Options
  import opened Splitting
  import opened Utf

  type DWORD = x: int | 0 <= x < 0x1_0000_0000

  const CONNECT_TIMEOUT: DWORD := 100
  const WRITE_TIMEOUT: DWORD := 1000
  const REQUEST_TIMEOUT: nat := 2000
  const CHUNK_SIZE := 4096

  type Chunk = s: bytes | |s| <= CHUNK_SIZE

  /**
    The fate of one overlapped operation. `Rejected` fails at once with an error other than
    ERROR_IO_PENDING. An issued operation ends at once (`sync`) or after `delay` ms, the wait
    on its event may itself fail, it may end in an error, and it moves `moved`, even if
    nobody waits long enough to see it: then the bytes are gone. Cancelling takes `linger` ms.
   */
  datatype Io<+T> =
    | Rejected
    | Issued(sync: bool, delay: nat, waitFails: bool, fails: bool, moved: T, linger: nat)

  predicate Signalled<T>(op: Io<T>, timeout: nat)
    requires op.Issued?
  {
    !op.waitFails && (op.sync || op.delay <= timeout)
  }

  /** What `completeIo` reports. */
  predicate Completes<T>(op: Io<T>, timeout: nat) {
    op.Issued? && Signalled(op, timeout) && !op.fails
  }

  /** The time spent waiting for the event, never more than the timeout. */
  function Waited<T>(op: Io<T>, timeout: nat): (t: nat)
    ensures t <= timeout
  {
    if op.Rejected? || op.sync || op.waitFails then 0
    else if op.delay <= timeout then op.delay else timeout
  }

  /** The time spent waiting for the end of a cancelled operation. */
  function Lingered<T>(op: Io<T>, timeout: nat): nat {
    if op.Issued? && !Signalled(op, timeout) then op.linger else 0
  }

  /** The connection while a reply is read. */
  datatype Link = Link(script: seq<Io<Chunk>>, now: nat, buffer: bytes)

  function NextRead(script: seq<Io<Chunk>>): Io<Chunk> {
    if script == [] then Rejected else script[0]
  }

  function Rest<T>(script: seq<T>): seq<T> {
    if script == [] then [] else script[1..]
  }

  /** The connection after one read: bytes of a failed read are not in the buffer. */
  function AfterRead(l: Link, timeout: nat): (r: Link) {
    var op := NextRead(l.script);
    Link(Rest(l.script), l.now + Waited(op, timeout) + Lingered(op, timeout),
         if Completes(op, timeout) then l.buffer + op.moved else l.buffer)
  }

  predicate ReadSucceeds(l: Link, timeout: nat) {
    Completes(NextRead(l.script), timeout) && NextRead(l.script).moved != []
  }

  datatype Read = Read(line: Option<wstring>, link: Link)

  /** `readLine` */
  function ReadLine(l: Link, timeout: nat): (r: Read)
    ensures |r.link.script| <= |l.script|
    decreases |l.script|
  {
    var pos := IndexOf<byte>(l.buffer, NEWLINE);
    if pos.Some? then Read(Some(Decode(l.buffer[..pos.value])), l.(buffer := l.buffer[pos.value + 1..]))
    else if ReadSucceeds(l, timeout) then ReadLine(AfterRead(l, timeout), timeout)
    else Read(None, AfterRead(l, timeout))
  }

  /** One round of `readLine`. */
  lemma ReadLineStep(l: Link, timeout: nat)
    ensures var pos := IndexOf<byte>(l.buffer, NEWLINE);
            ReadLine(l, timeout) ==
            if pos.Some? then Read(Some(Decode(l.buffer[..pos.value])), l.(buffer := l.buffer[pos.value + 1..]))
            else if ReadSucceeds(l, timeout) then ReadLine(AfterRead(l, timeout), timeout)
            else Read(None, AfterRead(l, timeout))
  {
  }

  /**
    The same in terms of the read: its bytes are appended and the search goes on exactly if it was
    issued, its event was signalled within the timeout, it did not fail and it brought something;
    otherwise there is no line, and the bytes of the read are gone.
   */
  lemma ReadLineRound(l: Link, timeout: nat)
    requires 0x0A !in l.buffer
    ensures var op, rest := NextRead(l.script), Rest(l.script);
            var r := ReadLine(l, timeout);
            if op.Issued? && !op.waitFails && (op.sync || op.delay <= timeout) && !op.fails && op.moved != []
            then r == ReadLine(Link(rest, l.now + (if op.sync then 0 else op.delay), l.buffer + op.moved), timeout)
            else r.line.None? && r.link.buffer == l.buffer && r.link.script == rest
  {
    NotFound<byte>(l.buffer, NEWLINE);
    if NextRead(l.script).Issued? && NextRead(l.script).moved == [] {
      assert l.buffer + [] == l.buffer;
    }
  }

  // ------------------------------------------------------ the byte stream

  /** Everything the reads take out of the pipe. */
  function Stream(script: seq<Io<Chunk>>): (s: bytes) {
    if script == [] then []
    else (if script[0].Issued? then script[0].moved else []) + Stream(script[1..])
  }

  /** The bytes the client has not yet returned as lines. */
  function Unread(l: Link): bytes {
    l.buffer + Stream(l.script)
  }

  lemma ReadKeepsStream(l: Link, timeout: nat)
    requires ReadSucceeds(l, timeout)
    ensures Unread(AfterRead(l, timeout)) == Unread(l)
  {
  }

  /** A returned line is the first line of the unread bytes, and nothing else is taken. */
  lemma {:induction false} ReadLineTakesFirstLine(l: Link, timeout: nat) returns (raw: bytes)
    requires ReadLine(l, timeout).line.Some?
    ensures var r := ReadLine(l, timeout);
            && NEWLINE !in raw && r.line == Some(Decode(raw))
            && Unread(l) == raw + [NEWLINE] + Unread(r.link)
    decreases |l.script|
  {
    var pos := IndexOf<byte>(l.buffer, NEWLINE);
    if pos.Some? {
      raw := l.buffer[..pos.value];
      var after := l.buffer[pos.value + 1..];
      assert l.buffer == raw + [NEWLINE] + after;
      assert raw + [NEWLINE] + after + Stream(l.script) == raw + [NEWLINE] + (after + Stream(l.script));
    } else {
      ReadKeepsStream(l, timeout);
      raw := ReadLineTakesFirstLine(AfterRead(l, timeout), timeout);
    }
  }

  /** In terms of the text: the line is the first piece, the others are still unread. */
  lemma ReadLineTakesFirstPiece(l: Link, timeout: nat)
    requires ReadLine(l, timeout).line.Some?
    ensures var r := ReadLine(l, timeout);
            TextPieces(Decode(Unread(l))) == [r.line.value] + TextPieces(Decode(Unread(r.link)))
    ensures NEWLINE !in ReadLine(l, timeout).line.value
    ensures |Unread(ReadLine(l, timeout).link)| < |Unread(l)|
  {
    var raw := ReadLineTakesFirstLine(l, timeout);
    var after := Unread(ReadLine(l, timeout).link);
    DecodeAround(raw, NEWLINE, after);
    DecodeKeepsAscii(raw, NEWLINE);
    SplitFirst<wchar>(Decode(raw), NEWLINE, Decode(after));
  }

  /** Every returned line shortens what is unread, and the clock never goes back. */
  lemma ReadLineProgress(l: Link, timeout: nat)
    ensures ReadLine(l, timeout).line.Some? ==> |Unread(ReadLine(l, timeout).link)| < |Unread(l)|
    ensures l.now <= ReadLine(l, timeout).link.now
  {
    if ReadLine(l, timeout).line.Some? {
      var raw := ReadLineTakesFirstLine(l, timeout);
    }
    ReadLineClock(l, timeout);
  }

  lemma {:induction false} ReadLineClock(l: Link, timeout: nat)
    ensures l.now <= ReadLine(l, timeout).link.now
    decreases |l.script|
  {
    if IndexOf<byte>(l.buffer, NEWLINE).None? && ReadSucceeds(l, timeout) {
      ReadLineClock(AfterRead(l, timeout), timeout);
    }
  }

  // ------------------------------------------- successive readLine calls

  datatype Drained = Drained(lines: seq<wstring>, link: Link)

  /** Successive `readLine` calls with these timeouts, up to the first failure. */
  function Drain(l: Link, timeouts: seq<nat>): (d: Drained)
    decreases |timeouts|
  {
    if timeouts == [] then Drained([], l)
    else
      var r := ReadLine(l, timeouts[0]);
      if r.line.None? then Drained([], l)
      else
        var d := Drain(r.link, timeouts[1..]);
        Drained([r.line.value] + d.lines, d.link)
  }

  /**
    Chunk independence: however the stream is cut into reads, the lines returned so far
    followed by the pieces still unread are the pieces of the whole stream.
   */
  lemma {:induction false} DrainRefinesSplitting(l: Link, timeouts: seq<nat>)
    ensures var d := Drain(l, timeouts);
            TextPieces(Decode(Unread(l))) == d.lines + TextPieces(Decode(Unread(d.link)))
    decreases |timeouts|
  {
    if timeouts != [] {
      var r := ReadLine(l, timeouts[0]);
      if r.line.Some? {
        ReadLineTakesFirstPiece(l, timeouts[0]);
        DrainRefinesSplitting(r.link, timeouts[1..]);
      }
    }
  }

  /** The bytes of lines, each followed by its line feed. */
  function Terminated(raws: seq<bytes>): bytes {
    if raws == [] then [] else raws[0] + [NEWLINE] + Terminated(raws[1..])
  }

  /** The same in bytes: the returned lines with their line feeds, the buffer and the rest are all there was. */
  lemma {:induction false} DrainAccountsForBytes(l: Link, timeouts: seq<nat>) returns (raws: seq<bytes>)
    ensures var d := Drain(l, timeouts);
            && |raws| == |d.lines|
            && (forall i :: 0 <= i < |raws| ==> NEWLINE !in raws[i] && d.lines[i] == Decode(raws[i]))
            && Unread(l) == Terminated(raws) + d.link.buffer + Stream(d.link.script)
    decreases |timeouts|
  {
    raws := [];
    if timeouts != [] && ReadLine(l, timeouts[0]).line.Some? {
      var raw := ReadLineTakesFirstLine(l, timeouts[0]);
      var r := ReadLine(l, timeouts[0]);
      var d := Drain(r.link, timeouts[1..]);
      var later := DrainAccountsForBytes(r.link, timeouts[1..]);
      raws := [raw] + later;
      TerminatedCons(raw, later, d.link);
    }
  }

  lemma TerminatedCons(raw: bytes, later: seq<bytes>, l: Link)
    ensures raw + [NEWLINE] + (Terminated(later) + l.buffer + Stream(l.script))
         == Terminated([raw] + later) + l.buffer + Stream(l.script)
  {
    assert ([raw] + later)[1..] == later;
    Regroup<byte>(raw + [NEWLINE], Terminated(later), l.buffer, Stream(l.script));
  }

  // --------------------------------------------------------------- request

  /** The loop of `request`. */
  function Collect(l: Link, deadline: nat, end: wstring, lines: seq<wstring>): (r: (Option<seq<wstring>>, Link))
    decreases |Unread(l)|
  {
    if l.now >= deadline then (None, l)
    else
      var r := ReadLine(l, deadline - l.now);
      if r.line.None? then (None, r.link)
      else if r.line.value == end then (Some(lines), r.link)
      else
        ReadLineProgress(l, deadline - l.now);
        Collect(r.link, deadline, end, lines + [r.line.value])
  }

  /** A line that is not the end marker: the loop goes on. */
  predicate GoesOn(l: Link, deadline: nat, end: wstring)
    requires l.now < deadline
  {
    var line := ReadLine(l, deadline - l.now).line;
    line.Some? && line.value != end
  }

  lemma LastRound(l: Link, deadline: nat, end: wstring, lines: seq<wstring>)
    requires l.now < deadline && !GoesOn(l, deadline, end)
    ensures var r := ReadLine(l, deadline - l.now);
            Collect(l, deadline, end, lines) == (if r.line.None? then None else Some(lines), r.link)
  {
  }

  lemma NextRound(l: Link, deadline: nat, end: wstring, lines: seq<wstring>)
    requires l.now < deadline && GoesOn(l, deadline, end)
    ensures var r := ReadLine(l, deadline - l.now);
            && l.now <= r.link.now && |Unread(r.link)| < |Unread(l)|
            && Collect(l, deadline, end, lines) == Collect(r.link, deadline, end, lines + [r.line.value])
  {
    ReadLineProgress(l, deadline - l.now);
  }

  /** The one-shot meaning of a reply: the complete lines in front of the first end marker. */
  function BeforeEnd(texts: seq<wstring>, end: wstring): Option<seq<wstring>> {
    var i := IndexOf<wstring>(texts, end);
    if i.None? then None else Some(texts[..i.value])
  }

  /** The complete lines of a stream, read and decoded in one go. */
  function CompleteLines(s: bytes): seq<wstring> {
    Front(TextPieces(Decode(s)))
  }

  function Reply(s: bytes, end: wstring): Option<seq<wstring>> {
    BeforeEnd(CompleteLines(s), end)
  }

  lemma Snoc<T>(a: seq<T>, x: T, b: seq<T>)
    ensures (a + [x]) + b == a + ([x] + b)
  {
  }

  /** The lines so far and the rest of the reply. */
  function Continued(lines: seq<wstring>, reply: Option<seq<wstring>>): Option<seq<wstring>> {
    if reply.None? then None else Some(lines + reply.value)
  }

  /** These lines are drained, and then the end marker for the first time. */
  ghost predicate DrainsTo(l: Link, timeouts: seq<nat>, end: wstring, before: seq<wstring>) {
    Drain(l, timeouts).lines == before + [end] && end !in before
  }

  lemma DrainsToOneMore(l: Link, timeout: nat, later: seq<nat>, end: wstring, before: seq<wstring>)
    requires var r := ReadLine(l, timeout);
             r.line.Some? && r.line.value != end && DrainsTo(r.link, later, end, before)
    ensures DrainsTo(l, [timeout] + later, end, [ReadLine(l, timeout).line.value] + before)
  {
    assert ([timeout] + later)[1..] == later;
  }

  lemma EndIsDrained(l: Link, timeout: nat, end: wstring)
    requires ReadLine(l, timeout).line == Some(end)
    ensures DrainsTo(l, [timeout], end, [])
  {
    assert [timeout][1..] == [];
  }

  /** What `request` collects is drained by its `readLine` calls. */
  lemma {:induction false} CollectedWasDrained(l: Link, deadline: nat, end: wstring, lines: seq<wstring>)
    returns (timeouts: seq<nat>, before: seq<wstring>)
    requires Collect(l, deadline, end, lines).0.Some?
    ensures DrainsTo(l, timeouts, end, before) && Collect(l, deadline, end, lines).0 == Some(lines + before)
    decreases |Unread(l)|
  {
    var timeout := deadline - l.now;
    var r := ReadLine(l, timeout);
    if GoesOn(l, deadline, end) {
      NextRound(l, deadline, end, lines);
      var later, rest := CollectedWasDrained(r.link, deadline, end, lines + [r.line.value]);
      timeouts, before := [timeout] + later, [r.line.value] + rest;
      DrainsToOneMore(l, timeout, later, end, rest);
      Snoc(lines, r.line.value, rest);
    } else {
      LastRound(l, deadline, end, lines);
      timeouts, before := [timeout], [];
      EndIsDrained(l, timeout, end);
      assert lines + [] == lines;
    }
  }

  /** One-shot splitting finds the end marker behind the same lines. */
  lemma DrainedIsReply(l: Link, timeouts: seq<nat>, end: wstring, before: seq<wstring>)
    requires DrainsTo(l, timeouts, end, before)
    ensures Reply(Unread(l), end) == Some(before)
  {
    DrainRefinesSplitting(l, timeouts);
    var rest := TextPieces(Decode(Unread(Drain(l, timeouts).link)));
    assert CompleteLines(Unread(l)) == before + [end] + Front(rest);
    FirstOccurrence<wstring>(before, end, Front(rest));
    Cut<wstring>(before, end, Front(rest));
  }

  /**
    Gap-freedom: whatever faults occur, a reply that is returned is exactly the peer's lines in
    front of its first end marker; nothing is lost, merged or truncated.
   */
  lemma CollectedIsReply(l: Link, deadline: nat, end: wstring, lines: seq<wstring>)
    requires Collect(l, deadline, end, lines).0.Some?
    ensures Collect(l, deadline, end, lines).0 == Continued(lines, Reply(Unread(l), end))
  {
    var timeouts, before := CollectedWasDrained(l, deadline, end, lines);
    DrainedIsReply(l, timeouts, end, before);
  }

  // ------------------------------------------------- fault-free connections

  predicate Delivers(op: Io<Chunk>) {
    op.Issued? && !op.waitFails && !op.fails && op.moved != []
  }

  function Delay(op: Io<Chunk>): nat {
    if op.Rejected? || op.sync then 0 else op.delay
  }

  function TotalDelay(script: seq<Io<Chunk>>): nat {
    if script == [] then 0 else Delay(script[0]) + TotalDelay(script[1..])
  }

  /** Every read delivers something, all of them in less time than the budget. */
  ghost predicate Healthy(script: seq<Io<Chunk>>, budget: int) {
    TotalDelay(script) < budget && forall op :: op in script ==> Delivers(op)
  }

  lemma HealthyStep(l: Link, budget: int, timeout: nat)
    requires l.script != [] && Healthy(l.script, budget) && budget <= timeout
    ensures ReadSucceeds(l, timeout)
    ensures var m := AfterRead(l, timeout);
            Healthy(m.script, budget - (m.now - l.now)) && Unread(m) == Unread(l)
            && |m.script| < |l.script| && m.now >= l.now
  {
    var op := l.script[0];
    assert op in l.script && Delivers(op);
    assert forall x :: x in l.script[1..] ==> x in l.script;
    ReadKeepsStream(l, timeout);
  }

  /** On a healthy connection a line is returned as soon as there is one. */
  lemma {:induction false} HealthyReadLine(l: Link, budget: int, timeout: nat)
    requires Healthy(l.script, budget) && budget <= timeout
    ensures var r := ReadLine(l, timeout);
            && (r.line.Some? <==> NEWLINE in Unread(l))
            && (r.line.Some? ==> Healthy(r.link.script, budget - (r.link.now - l.now)) && r.link.now >= l.now)
    decreases |l.script|
  {
    if NEWLINE !in l.buffer {
      if l.script == [] {
        assert Unread(l) == l.buffer;
      } else {
        HealthyStep(l, budget, timeout);
        var m := AfterRead(l, timeout);
        HealthyReadLine(m, budget - (m.now - l.now), timeout);
      }
    }
  }

  lemma HealthyRound(l: Link, deadline: nat)
    requires Healthy(l.script, deadline - l.now)
    ensures l.now < deadline
    ensures var r := ReadLine(l, deadline - l.now);
            && (r.line.None? ==> NEWLINE !in Unread(l))
            && (r.line.Some? ==> Healthy(r.link.script, deadline - r.link.now))
  {
    var timeout := deadline - l.now;
    HealthyReadLine(l, timeout, timeout);
    var r := ReadLine(l, timeout);
    assert timeout - (r.link.now - l.now) == deadline - r.link.now;
  }

  /** The lines are drained without the end marker, and no further line is left. */
  ghost predicate DrainsWithout(l: Link, timeouts: seq<nat>, end: wstring) {
    var d := Drain(l, timeouts);
    end !in d.lines && NEWLINE !in Unread(d.link)
  }

  lemma DrainsOneMore(l: Link, timeout: nat, later: seq<nat>, end: wstring)
    requires var r := ReadLine(l, timeout);
             r.line.Some? && r.line.value != end && DrainsWithout(r.link, later, end)
    ensures DrainsWithout(l, [timeout] + later, end)
  {
    assert ([timeout] + later)[1..] == later;
  }

  /** A healthy connection fails only when all lines were read and none was the end marker. */
  lemma {:induction false} HealthyFailsAtTheEnd(l: Link, deadline: nat, end: wstring, lines: seq<wstring>)
    returns (timeouts: seq<nat>)
    requires Healthy(l.script, deadline - l.now) && Collect(l, deadline, end, lines).0.None?
    ensures DrainsWithout(l, timeouts, end)
    decreases |Unread(l)|
  {
    HealthyRound(l, deadline);
    if GoesOn(l, deadline, end) {
      NextRound(l, deadline, end, lines);
      var r := ReadLine(l, deadline - l.now);
      var later := HealthyFailsAtTheEnd(r.link, deadline, end, lines + [r.line.value]);
      timeouts := [deadline - l.now] + later;
      DrainsOneMore(l, deadline - l.now, later, end);
    } else {
      LastRound(l, deadline, end, lines);
      timeouts := [];
    }
  }

  lemma DrainedHasNoReply(l: Link, timeouts: seq<nat>, end: wstring)
    requires DrainsWithout(l, timeouts, end)
    ensures Reply(Unread(l), end).None?
  {
    var d := Drain(l, timeouts);
    DrainRefinesSplitting(l, timeouts);
    DecodeKeepsAscii(Unread(d.link), NEWLINE);
    SplitFree<wchar>(Decode(Unread(d.link)), NEWLINE);
    assert CompleteLines(Unread(l)) == d.lines;
    NotFound<wstring>(d.lines, end);
  }

  /**
    Refinement: on a connection without faults whose delays stay below the deadline,
    incremental reading is one-shot splitting, for every cut of the stream into reads.
   */
  lemma HealthyCollect(l: Link, deadline: nat, end: wstring, lines: seq<wstring>)
    requires Healthy(l.script, deadline - l.now)
    ensures Collect(l, deadline, end, lines).0 == Continued(lines, Reply(Unread(l), end))
  {
    if Collect(l, deadline, end, lines).0.Some? {
      CollectedIsReply(l, deadline, end, lines);
    } else {
      var timeouts := HealthyFailsAtTheEnd(l, deadline, end, lines);
      DrainedHasNoReply(l, timeouts, end);
    }
  }

  /** The connection if the kernel went on with these reads. */
  function Longer(l: Link, more: seq<Io<Chunk>>): Link {
    l.(script := l.script + more)
  }

  lemma LongerAfterRead(l: Link, more: seq<Io<Chunk>>, timeout: nat)
    requires ReadSucceeds(l, timeout)
    ensures ReadSucceeds(Longer(l, more), timeout)
    ensures AfterRead(Longer(l, more), timeout) == Longer(AfterRead(l, timeout), more)
  {
    assert (l.script + more)[1..] == l.script[1..] + more;
  }

  /** A line that can be returned does not depend on later reads. */
  lemma {:induction false} LaterReadsDoNotMatter(l: Link, more: seq<Io<Chunk>>, timeout: nat)
    requires ReadLine(l, timeout).line.Some?
    ensures var r := ReadLine(l, timeout); ReadLine(Longer(l, more), timeout) == Read(r.line, Longer(r.link, more))
    decreases |l.script|
  {
    ReadLineStep(l, timeout);
    ReadLineStep(Longer(l, more), timeout);
    if IndexOf<byte>(l.buffer, NEWLINE).None? {
      LongerAfterRead(l, more, timeout);
      LaterReadsDoNotMatter(AfterRead(l, timeout), more, timeout);
    }
  }

  /** Nor does a whole reply. */
  lemma {:induction false} ReplyIsFinal(
    l: Link, more: seq<Io<Chunk>>, deadline: nat, end: wstring, lines: seq<wstring>)
    requires Collect(l, deadline, end, lines).0.Some?
    ensures Collect(Longer(l, more), deadline, end, lines).0 == Collect(l, deadline, end, lines).0
    decreases |Unread(l)|
  {
    var longer := Longer(l, more);
    LaterReadsDoNotMatter(l, more, deadline - l.now);
    if GoesOn(l, deadline, end) {
      NextRound(l, deadline, end, lines);
      NextRound(longer, deadline, end, lines);
      var r := ReadLine(l, deadline - l.now);
      ReplyIsFinal(r.link, more, deadline, end, lines + [r.line.value]);
    } else {
      LastRound(l, deadline, end, lines);
      LastRound(longer, deadline, end, lines);
    }
  }

  /** Healthy reads up to the end marker; anything may happen after them. */
  ghost predicate HealthyReply(l: Link, budget: int, end: wstring, n: nat) {
    n <= |l.script| && Healthy(l.script[..n], budget) && Reply(Unread(l.(script := l.script[..n])), end).Some?
  }

  /** So faults after the end marker do not matter: the request returns the reply. */
  lemma HealthyReplyIsReturned(l: Link, deadline: nat, end: wstring, n: nat)
    requires HealthyReply(l, deadline - l.now, end, n)
    ensures Reply(Unread(l), end).Some? && Collect(l, deadline, end, []).0 == Reply(Unread(l), end)
  {
    var shorter, more := l.(script := l.script[..n]), l.script[n..];
    assert Longer(shorter, more) == l;
    HealthyCollect(shorter, deadline, end, []);
    ReplyIsFinal(shorter, more, deadline, end, []);
    CollectedIsReply(l, deadline, end, []);
    NothingBefore(Reply(Unread(l), end));
  }

  lemma NothingBefore(reply: Option<seq<wstring>>)
    ensures Continued([], reply) == reply
  {
    if reply.Some? {
      assert [] + reply.value == reply.value;
    }
  }

  /** Two connections that carry the same bytes give the same reply, however they cut them. */
  lemma ChunkIndependence(a: Link, b: Link, deadlineA: nat, deadlineB: nat, end: wstring)
    requires Unread(a) == Unread(b)
    requires Healthy(a.script, deadlineA - a.now)
    ensures Healthy(b.script, deadlineB - b.now) ==>
              Collect(a, deadlineA, end, []).0 == Collect(b, deadlineB, end, []).0
    ensures var r := Collect(b, deadlineB, end, []).0; r.Some? ==> r == Collect(a, deadlineA, end, []).0
  {
    HealthyCollect(a, deadlineA, end, []);
    if Healthy(b.script, deadlineB - b.now) {
      HealthyCollect(b, deadlineB, end, []);
    }
    if Collect(b, deadlineB, end, []).0.Some? {
      CollectedIsReply(b, deadlineB, end, []);
    }
  }

  // ---------------------------------------------------------- the deadline

  /** One `readLine` call: its timeout, the reads it waited for, the time cancelling took. */
  datatype Call = Call(timeout: nat, waits: nat, lingered: nat)

  function LingeredIn(l: Link, timeout: nat): nat
    decreases |l.script|
  {
    if IndexOf<byte>(l.buffer, NEWLINE).Some? then 0
    else if ReadSucceeds(l, timeout) then LingeredIn(AfterRead(l, timeout), timeout)
    else Lingered(NextRead(l.script), timeout)
  }

  /** The reads the call issues and waits for; a rejected one is not waited for. */
  function WaitsIn(l: Link, timeout: nat): nat
    decreases |l.script|
  {
    if IndexOf<byte>(l.buffer, NEWLINE).Some? then 0
    else if ReadSucceeds(l, timeout) then 1 + WaitsIn(AfterRead(l, timeout), timeout)
    else if NextRead(l.script).Issued? then 1
    else 0
  }

  function CallOf(l: Link, timeout: nat): Call {
    Call(timeout, WaitsIn(l, timeout), LingeredIn(l, timeout))
  }

  /** The `readLine` calls of a request, in order. */
  function Calls(l: Link, deadline: nat, end: wstring): (calls: seq<Call>)
    decreases |Unread(l)|
  {
    if l.now >= deadline then []
    else
      var timeout := deadline - l.now;
      var r := ReadLine(l, timeout);
      if r.line.None? || r.line.value == end then [CallOf(l, timeout)]
      else
        ReadLineProgress(l, timeout);
        [CallOf(l, timeout)] + Calls(r.link, deadline, end)
  }

  lemma LastCall(l: Link, deadline: nat, end: wstring)
    requires l.now < deadline && !GoesOn(l, deadline, end)
    ensures Calls(l, deadline, end) == [CallOf(l, deadline - l.now)]
  {
  }

  lemma NextCall(l: Link, deadline: nat, end: wstring)
    requires l.now < deadline && GoesOn(l, deadline, end)
    ensures Calls(l, deadline, end)
         == [CallOf(l, deadline - l.now)] + Calls(ReadLine(l, deadline - l.now).link, deadline, end)
  {
  }

  lemma OneMore(k: nat, t: nat)
    ensures (1 + k) * t == t + k * t
  {
  }

  /** Every read a call waits for takes at most the call's own timeout. */
  lemma {:induction false} ReadLineTime(l: Link, timeout: nat)
    ensures ReadLine(l, timeout).link.now <= l.now + WaitsIn(l, timeout) * timeout + LingeredIn(l, timeout)
    decreases |l.script|
  {
    if IndexOf<byte>(l.buffer, NEWLINE).None? {
      ReadLineStep(l, timeout);
      if ReadSucceeds(l, timeout) {
        var m := AfterRead(l, timeout);
        ReadLineTime(m, timeout);
        OneMore(WaitsIn(m, timeout), timeout);
      }
    }
  }

  /** No timeout underflows or is narrowed: each is between 1 and the request timeout. */
  lemma {:induction false} TimeoutsInRange(l: Link, deadline: nat, end: wstring)
    requires deadline <= l.now + REQUEST_TIMEOUT
    ensures forall c :: c in Calls(l, deadline, end) ==> 1 <= c.timeout <= REQUEST_TIMEOUT
    decreases |Unread(l)|
  {
    if l.now < deadline {
      if GoesOn(l, deadline, end) {
        NextCall(l, deadline, end);
        ReadLineProgress(l, deadline - l.now);
        TimeoutsInRange(ReadLine(l, deadline - l.now).link, deadline, end);
      } else {
        LastCall(l, deadline, end);
      }
    }
  }

  function Max(a: nat, b: nat): nat { if a < b then b else a }

  /**
    When the last call of a request ends: `k` reads, each within the call's timeout `t`, which
    is what was left until the deadline, so k - 1 of them and the cancellation can come after it.
   */
  function LatestEnd(deadline: nat, last: Call): nat {
    deadline + (Max(1, last.waits) - 1) * last.timeout + last.lingered
  }

  lemma LastCallTime(l: Link, deadline: nat)
    requires l.now < deadline
    ensures ReadLine(l, deadline - l.now).link.now <= LatestEnd(deadline, CallOf(l, deadline - l.now))
  {
    var timeout := deadline - l.now;
    var waits := WaitsIn(l, timeout);
    ReadLineTime(l, timeout);
    if waits > 0 {
      OneMore(waits - 1, timeout);
    }
  }

  lemma {:induction false} RequestTime(l: Link, deadline: nat, end: wstring, lines: seq<wstring>)
    requires l.now < deadline
    ensures var calls := Calls(l, deadline, end);
            calls != [] && Collect(l, deadline, end, lines).1.now <= LatestEnd(deadline, Last(calls))
    decreases |Unread(l)|
  {
    var timeout := deadline - l.now;
    var r := ReadLine(l, timeout);
    LastCallTime(l, deadline);
    if !GoesOn(l, deadline, end) {
      LastRound(l, deadline, end, lines);
      LastCall(l, deadline, end);
    } else {
      NextRound(l, deadline, end, lines);
      NextCall(l, deadline, end);
      if r.link.now < deadline {
        RequestTime(r.link, deadline, end, lines + [r.line.value]);
        LastOfCons(CallOf(l, timeout), Calls(r.link, deadline, end));
      }
    }
  }

  lemma LastOfCons<T>(x: T, s: seq<T>)
    requires s != []
    ensures Last([x] + s) == Last(s)
  {
  }

  /**
    From the moment the command is sent: a reply is awaited at most one request timeout and
    `k - 1` times the timeout of the last `readLine`, where `k` is the number of reads that
    call waited for, plus the time of its cancellation; so at most `max(1, k)` request timeouts.
   */
  lemma ReplyTime(l: Link, end: wstring)
    ensures var deadline := l.now + REQUEST_TIMEOUT;
            var calls := Calls(l, deadline, end);
            && calls != []
            && Collect(l, deadline, end, []).1.now <= LatestEnd(deadline, Last(calls))
            && LatestEnd(deadline, Last(calls))
               <= l.now + Max(1, Last(calls).waits) * REQUEST_TIMEOUT + Last(calls).lingered
  {
    var deadline := l.now + REQUEST_TIMEOUT;
    RequestTime(l, deadline, end, []);
    LastTimeoutInRange(l, deadline, end);
    LongestTimeout(Last(Calls(l, deadline, end)));
  }

  lemma LastTimeoutInRange(l: Link, deadline: nat, end: wstring)
    requires deadline <= l.now + REQUEST_TIMEOUT && Calls(l, deadline, end) != []
    ensures Last(Calls(l, deadline, end)).timeout <= REQUEST_TIMEOUT
  {
    TimeoutsInRange(l, deadline, end);
    var calls := Calls(l, deadline, end);
    assert Last(calls) in calls;
  }

  lemma LongestTimeout(last: Call)
    requires last.timeout <= REQUEST_TIMEOUT
    ensures (Max(1, last.waits) - 1) * last.timeout + REQUEST_TIMEOUT <= Max(1, last.waits) * REQUEST_TIMEOUT
  {
    MoreTime(Max(1, last.waits) - 1, last.timeout, REQUEST_TIMEOUT);
  }

  lemma MoreTime(k: nat, s: nat, t: nat)
    requires s <= t
    ensures k * s <= k * t
  {
  }

  /** A peer that drips bytes without a line feed, each just in time. */
  function Drip(k: nat): (script: seq<Io<Chunk>>)
    ensures |script| == k
  {
    if k == 0 then [] else [Issued(false, REQUEST_TIMEOUT, false, false, [0x61], 0)] + Drip(k - 1)
  }

  lemma {:induction false} DripTime(k: nat, now: nat, buffer: bytes)
    requires NEWLINE !in buffer
    ensures var l := Link(Drip(k), now, buffer);
            var r := ReadLine(l, REQUEST_TIMEOUT);
            && r.line.None? && r.link.now == now + k * REQUEST_TIMEOUT
            && WaitsIn(l, REQUEST_TIMEOUT) == k && LingeredIn(l, REQUEST_TIMEOUT) == 0
    decreases k
  {
    if k > 0 {
      assert Drip(k)[1..] == Drip(k - 1);
      DripTime(k - 1, now + REQUEST_TIMEOUT, buffer + [0x61]);
    }
  }

  /** The bound is attained: for every k there is a reply that takes k request timeouts. */
  lemma RequestTimeIsAttained(k: nat, now: nat, end: wstring)
    ensures var l, deadline := Link(Drip(k), now, []), now + REQUEST_TIMEOUT;
            && Collect(l, deadline, end, []).1.now == now + k * REQUEST_TIMEOUT
            && Calls(l, deadline, end) == [Call(REQUEST_TIMEOUT, k, 0)]
            && (k > 0 ==> LatestEnd(deadline, Call(REQUEST_TIMEOUT, k, 0)) == now + k * REQUEST_TIMEOUT)
  {
    DripTime(k, now, []);
  }

  // ------------------------------------ when the request timeout is kept

  /**
    The time that the reads can take up to the first one that brings nothing, if each of them may
    be waited for that long.
   */
  function Spent(script: seq<Io<Chunk>>, timeout: nat): nat {
    if script == [] then 0
    else
      var op := script[0];
      Waited(op, timeout) + Lingered(op, timeout)
      + (if Completes(op, timeout) && op.moved != [] then Spent(script[1..], timeout) else 0)
  }

  /** Less patience makes no difference as long as it is enough for all that is spent. */
  lemma {:induction false} SpentWithin(script: seq<Io<Chunk>>, shorter: nat, timeout: nat)
    requires Spent(script, timeout) <= shorter <= timeout
    ensures Spent(script, shorter) == Spent(script, timeout)
  {
    if script != [] && Completes(script[0], timeout) && script[0].moved != [] {
      SpentWithin(script[1..], shorter, timeout);
    }
  }

  /** A `readLine` call that returns a line leaves the rest to be spent; one that fails has spent all. */
  lemma {:induction false} ReadLineSpends(l: Link, timeout: nat)
    ensures var r := ReadLine(l, timeout);
            var left := if r.line.Some? then Spent(r.link.script, timeout) else 0;
            r.link.now + left == l.now + Spent(l.script, timeout)
    decreases |l.script|
  {
    ReadLineStep(l, timeout);
    if IndexOf<byte>(l.buffer, NEWLINE).None? && ReadSucceeds(l, timeout) {
      ReadLineSpends(AfterRead(l, timeout), timeout);
    }
  }

  /** The reads together take no longer than what is left until the deadline. */
  predicate InTime(l: Link, deadline: nat) {
    l.now <= deadline && Spent(l.script, deadline - l.now) <= deadline - l.now
  }

  lemma InTimeRound(l: Link, deadline: nat)
    requires l.now < deadline && InTime(l, deadline)
    ensures var r := ReadLine(l, deadline - l.now);
            r.link.now <= deadline && (r.line.Some? ==> InTime(r.link, deadline))
  {
    var timeout := deadline - l.now;
    var r := ReadLine(l, timeout);
    ReadLineSpends(l, timeout);
    ReadLineClock(l, timeout);
    if r.line.Some? {
      SpentWithin(r.link.script, deadline - r.link.now, timeout);
    }
  }

  /** Then the request is never late. */
  lemma {:induction false} EndsInTime(l: Link, deadline: nat, end: wstring, lines: seq<wstring>)
    requires InTime(l, deadline)
    ensures Collect(l, deadline, end, lines).1.now <= deadline
    decreases |Unread(l)|
  {
    if l.now < deadline {
      InTimeRound(l, deadline);
      if GoesOn(l, deadline, end) {
        NextRound(l, deadline, end, lines);
        var r := ReadLine(l, deadline - l.now);
        EndsInTime(r.link, deadline, end, lines + [r.line.value]);
      } else {
        LastRound(l, deadline, end, lines);
      }
    }
  }

  /** The same reads, but with other bytes. */
  predicate SameTiming(a: seq<Io<Chunk>>, b: seq<Io<Chunk>>) {
    && |a| == |b|
    && forall i :: 0 <= i < |a| ==> SameFate(a[i], b[i])
  }

  predicate SameFate(a: Io<Chunk>, b: Io<Chunk>) {
    if a.Rejected? then b.Rejected?
    else b.Issued? && |a.moved| == |b.moved| && a == b.(moved := a.moved)
  }

  lemma {:induction false} SpentDependsOnTiming(a: seq<Io<Chunk>>, b: seq<Io<Chunk>>, timeout: nat)
    requires SameTiming(a, b)
    ensures Spent(a, timeout) == Spent(b, timeout)
  {
    if a != [] {
      assert SameFate(a[0], b[0]);
      SpentDependsOnTiming(a[1..], b[1..], timeout);
    }
  }

  function Blank(op: Io<Chunk>): Io<Chunk> {
    if op.Rejected? then op else op.(moved := seq(|op.moved|, i => 0x61))
  }

  /** The same reads without any line feed. */
  function Blanked(script: seq<Io<Chunk>>): (r: seq<Io<Chunk>>)
    ensures SameTiming(script, r)
    ensures forall op :: op in r && op.Issued? ==> NEWLINE !in op.moved
  {
    seq(|script|, i requires 0 <= i < |script| => Blank(script[i]))
  }

  lemma {:induction false} NoLineFeedNoLine(l: Link, timeout: nat)
    requires NEWLINE !in l.buffer && forall op :: op in l.script && op.Issued? ==> NEWLINE !in op.moved
    ensures ReadLine(l, timeout).line.None?
    decreases |l.script|
  {
    ReadLineStep(l, timeout);
    if ReadSucceeds(l, timeout) {
      assert l.script[0] in l.script;
      NoLineFeedNoLine(AfterRead(l, timeout), timeout);
    }
  }

  /** Without a line feed all that can be spent is spent. */
  lemma BlankReplyTakesAll(script: seq<Io<Chunk>>, now: nat, timeout: nat, end: wstring)
    requires timeout > 0
    ensures Collect(Link(Blanked(script), now, []), now + timeout, end, []).1.now == now + Spent(script, timeout)
  {
    var l := Link(Blanked(script), now, []);
    NoLineFeedNoLine(l, timeout);
    LastRound(l, now + timeout, end, []);
    ReadLineSpends(l, timeout);
    SpentDependsOnTiming(script, l.script, timeout);
  }

  /**
    Exactly when the request timeout bounds a whole reply: for reads of a given timing, whatever
    bytes they carry, if and only if together they take no longer than it, up to the first one
    that brings nothing.
   */
  lemma RequestTimeoutIsKeptExactly(script: seq<Io<Chunk>>, now: nat, end: wstring)
    ensures (forall other :: SameTiming(script, other) ==>
               Collect(Link(other, now, []), now + 2000, end, []).1.now <= now + 2000)
       <==> Spent(script, 2000) <= 2000
  {
    assert REQUEST_TIMEOUT == 2000;
    if Spent(script, REQUEST_TIMEOUT) <= REQUEST_TIMEOUT {
      forall other | SameTiming(script, other)
        ensures Collect(Link(other, now, []), now + REQUEST_TIMEOUT, end, []).1.now <= now + REQUEST_TIMEOUT
      {
        SpentDependsOnTiming(script, other, REQUEST_TIMEOUT);
        EndsInTime(Link(other, now, []), now + REQUEST_TIMEOUT, end, []);
      }
    }
    assert SameTiming(script, Blanked(script));
    BlankReplyTakesAll(script, now, REQUEST_TIMEOUT, end);
  }
}
