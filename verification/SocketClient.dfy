/**
  `SocketClient`: one connection per request over an overlapped pipe. The class follows the
  C++ step by step against the kernel; the functions on `World` are what its static methods
  compute, and what the cache above them is specified with.
 */
module SocketClients {
  import opened Options
  import opened Splitting
  import opened Utf
  import opened Grammar
  import opened MenuList
  import opened Wire
  import opened Pipe

  /**
    The next client process to talk to: whether its pipe exists, how long until an instance is
    free, whether it can be opened, and the fate of every write and read.
   */
  datatype Peer = Peer(present: bool, busy: nat, opens: bool, sending: seq<Io<nat>>, receiving: seq<Io<Chunk>>)

  const NO_PEER := Peer(false, 0, false, [], [])

  /** The clock, the peers of the coming connections, and the bytes each connection has sent. */
  datatype World = World(now: nat, peers: seq<Peer>, wires: seq<bytes>)

  // ------------------------------------------------------- specifications

  function NextPeer(w: World): Peer {
    if w.peers == [] then NO_PEER else w.peers[0]
  }

  predicate Connects(p: Peer) {
    p.present && p.busy <= CONNECT_TIMEOUT && p.opens
  }

  /** The world after `connect`. */
  function AfterConnect(w: World): World {
    var p := NextPeer(w);
    var wait := if !p.present then 0 else if p.busy <= CONNECT_TIMEOUT then p.busy else CONNECT_TIMEOUT;
    w.(now := w.now + wait, peers := Rest(w.peers))
  }

  function NextWrite(p: Peer): Io<nat> {
    if p.sending == [] then Rejected else p.sending[0]
  }

  /** The bytes the kernel accepted for the pipe. */
  function Accepted(op: Io<nat>, data: bytes): (s: bytes)
    ensures s <= data
  {
    if op.Rejected? then [] else if op.moved <= |data| then data[..op.moved] else data
  }

  predicate Sends(op: Io<nat>, data: bytes) {
    Completes(op, WRITE_TIMEOUT) && op.moved == |data|
  }

  /** The world after `sendLine`. */
  function AfterSend(w: World, op: Io<nat>, data: bytes): World {
    w.(now := w.now + Waited(op, WRITE_TIMEOUT) + Lingered(op, WRITE_TIMEOUT), wires := w.wires + [Accepted(op, data)])
  }

  /** The connection when the reply is awaited. */
  function ReplyLink(w: World, message: wstring): Link {
    var p := NextPeer(w);
    Link(p.receiving, AfterSend(AfterConnect(w), NextWrite(p), LineBytes(message)).now, [])
  }

  /** `request` */
  function Requested(w: World, message: wstring, end: wstring): (World, Option<seq<wstring>>) {
    var p, connected, data := NextPeer(w), AfterConnect(w), LineBytes(message);
    if !Connects(p) then (connected, None)
    else
      var sent := AfterSend(connected, NextWrite(p), data);
      if !Sends(NextWrite(p), data) then (sent, None)
      else
        var reply := Collect(Link(p.receiving, sent.now, []), sent.now + REQUEST_TIMEOUT, end, []);
        (sent.(now := reply.1.now), reply.0)
  }

  /** `fetchMenuItems` */
  function FetchedMenu(w: World, files: seq<wstring>): (World, seq<MenuItem>) {
    if files == [] then (w, [])
    else
      var r := Requested(w, GET_MENU + JoinFiles(files), MENU_END);
      (r.0, if r.1.None? then [] else Normalised(r.1.value))
  }

  /** `fetchStrings` */
  function FetchedStrings(w: World): (World, map<wstring, wstring>) {
    var r := Requested(w, GET_STRINGS, STRINGS_END);
    (r.0, if r.1.None? then map[] else Strings(r.1.value))
  }

  /** `sendCommand` */
  function SentCommand(w: World, command: wstring, files: seq<wstring>): (World, bool) {
    var p, connected, data := NextPeer(w), AfterConnect(w), LineBytes(CommandLine(command, files));
    if !Connects(p) then (connected, false)
    else (AfterSend(connected, NextWrite(p), data), Sends(NextWrite(p), data))
  }

  // -------------------------------------------------------------- classes

  class Kernel {
    var now: nat
    var peers: seq<Peer>
    var wires: seq<bytes>

    function View(): World
      reads this
    {
      World(now, peers, wires)
    }

    constructor (world: World)
      ensures View() == world
    {
      now, peers, wires := world.now, world.peers, world.wires;
    }
  }

  class SocketClient {
    const kernel: Kernel
    /** The handle is valid. */
    var open: bool
    /** An operation that uses `_overlapped` has been issued and has not ended. */
    var inFlight: bool
    var sending: seq<Io<nat>>
    var receiving: seq<Io<Chunk>>
    var buffer: bytes

    function Connection(): Link
      reads this, kernel
    {
      Link(receiving, kernel.now, buffer)
    }

    constructor (kernel: Kernel)
      ensures this.kernel == kernel && !open && !inFlight && buffer == []
    {
      this.kernel := kernel;
      open, inFlight := false, false;
      sending, receiving, buffer := [], [], [];
    }

    method Connect() returns (ok: bool)
      modifies this`open, this`sending, this`receiving, kernel`now, kernel`peers
      ensures var p := NextPeer(old(kernel.View()));
              && ok == (p.present && p.busy <= 100 && p.opens)
              && open == ok && (ok ==> sending == p.sending && receiving == p.receiving)
              && kernel.now == old(kernel.now) + (if !p.present then 0 else if p.busy <= 100 then p.busy else 100)
      ensures kernel.View() == AfterConnect(old(kernel.View()))
    {
      var p := NextPeer(kernel.View());
      kernel.peers := Rest(kernel.peers);
      open := false;
      if !p.present {
        return false;
      }
      if p.busy > CONNECT_TIMEOUT {
        kernel.now := kernel.now + CONNECT_TIMEOUT;
        return false;
      }
      kernel.now := kernel.now + p.busy;
      open, sending, receiving := p.opens, p.sending, p.receiving;
      ok := open;
    }

    // ---- the kernel calls

    method WriteFile(data: bytes) returns (started: bool, op: Io<nat>)
      requires open && !inFlight
      modifies this`inFlight, this`sending, kernel`wires
      ensures op == (if old(sending) == [] then Rejected else old(sending)[0]) && sending == Rest(old(sending))
      ensures started == (op.Issued? && op.sync) && inFlight == op.Issued?
      ensures kernel.wires == old(kernel.wires) + [Accepted(op, data)]
    {
      op := if sending == [] then Rejected else sending[0];
      sending := Rest(sending);
      started, inFlight := op.Issued? && op.sync, op.Issued?;
      kernel.wires := kernel.wires + [Accepted(op, data)];
    }

    method ReadFile() returns (started: bool, op: Io<Chunk>)
      requires open && !inFlight
      modifies this`inFlight, this`receiving
      ensures op == NextRead(old(receiving)) && receiving == Rest(old(receiving))
      ensures started == (op.Issued? && op.sync) && inFlight == op.Issued?
    {
      op := NextRead(receiving);
      receiving := Rest(receiving);
      started, inFlight := op.Issued? && op.sync, op.Issued?;
    }

    method WaitForSingleObject<T>(op: Io<T>, timeout: DWORD) returns (signalled: bool)
      requires inFlight && op.Issued?
      modifies kernel`now
      ensures signalled == Signalled(op, timeout)
      ensures kernel.now == old(kernel.now) + Waited(op, timeout)
    {
      kernel.now := kernel.now + Waited(op, timeout);
      signalled := Signalled(op, timeout);
    }

    /** With `wait` it returns when the operation has ended, without it only reports one that has. */
    method GetOverlappedResult<T>(op: Io<T>, wait: bool, timeout: DWORD) returns (ok: bool)
      requires inFlight && op.Issued?
      requires wait != Signalled(op, timeout)
      modifies this`inFlight, kernel`now
      ensures !inFlight
      ensures ok == (!wait && !op.fails)
      ensures kernel.now == old(kernel.now) + Lingered(op, timeout)
    {
      kernel.now := kernel.now + Lingered(op, timeout);
      inFlight := false;
      ok := !wait && !op.fails;
    }

    // ---- the methods of the class

    /** No operation is pending when it returns, so no buffer is written after it is gone. */
    method CompleteIo<T>(started: bool, op: Io<T>, timeout: DWORD) returns (ok: bool)
      requires inFlight == op.Issued? && started == (op.Issued? && op.sync)
      modifies this`inFlight, kernel`now
      ensures !inFlight
      ensures ok <==> op.Issued? && !op.waitFails && (op.sync || op.delay <= timeout) && !op.fails
      ensures ok ==> kernel.now == old(kernel.now) + if op.sync then 0 else op.delay
      ensures kernel.now == old(kernel.now) + Waited(op, timeout) + Lingered(op, timeout)
    {
      if !started && op.Rejected? {
        return false;
      }
      var signalled := WaitForSingleObject(op, timeout);
      if !signalled {
        var _ := GetOverlappedResult(op, true, timeout);
        return false;
      }
      ok := GetOverlappedResult(op, false, timeout);
    }

    method SendLine(line: wstring) returns (ok: bool)
      requires open && !inFlight
      modifies this`inFlight, this`sending, kernel`now, kernel`wires
      ensures !inFlight && kernel.peers == old(kernel.peers)
      ensures var op := if old(sending) == [] then Rejected else old(sending)[0];
              ok == Sends(op, LineBytes(line)) && kernel.View() == AfterSend(old(kernel.View()), op, LineBytes(line))
    {
      var data := Encode(line + [NEWLINE]);
      var started, op := WriteFile(data);
      ok := CompleteIo(started, op, WRITE_TIMEOUT);
      ok := ok && op.moved == |data|;
    }

    method ReadNextLine(timeout: DWORD) returns (line: Option<wstring>)
      requires open && !inFlight
      modifies this`inFlight, this`receiving, this`buffer, kernel`now
      ensures !inFlight
      ensures Read(line, Connection()) == ReadLine(old(Connection()), timeout)
    {
      while true
        invariant !inFlight
        invariant ReadLine(Connection(), timeout) == ReadLine(old(Connection()), timeout)
        decreases |receiving|
      {
        var pos := IndexOf<byte>(buffer, NEWLINE);
        ghost var before := Connection();
        ReadLineStep(before, timeout);
        if pos.Some? {
          line := Some(Decode(buffer[..pos.value]));
          buffer := buffer[pos.value + 1..];
          return;
        }
        var started, op := ReadFile();
        var ok := CompleteIo(started, op, timeout);
        if !ok || op.moved == [] {
          assert buffer + [] == buffer;
          assert Connection() == AfterRead(before, timeout);
          return None;
        }
        buffer := buffer + op.moved;
        assert Connection() == AfterRead(before, timeout);
      }
    }

    static method Request(kernel: Kernel, message: wstring, end: wstring) returns (lines: Option<seq<wstring>>)
      modifies kernel
      ensures (kernel.View(), lines) == Requested(old(kernel.View()), message, end)
    {
      var socket := new SocketClient(kernel);
      var ok := socket.Connect();
      if !ok {
        return None;
      }
      ok := socket.SendLine(message);
      if !ok {
        return None;
      }
      lines := socket.ReceiveLines(end);
    }

    /** The loop of `request`: lines are collected until the end marker or the deadline. */
    method ReceiveLines(end: wstring) returns (lines: Option<seq<wstring>>)
      requires open && !inFlight
      modifies this`inFlight, this`receiving, this`buffer, kernel`now
      ensures !inFlight
      ensures (lines, Connection()) == Collect(old(Connection()), old(kernel.now) + REQUEST_TIMEOUT, end, [])
    {
      var received: seq<wstring> := [];
      var deadline := kernel.now + REQUEST_TIMEOUT;
      while true
        invariant !inFlight && deadline <= kernel.now + REQUEST_TIMEOUT
        invariant Collect(Connection(), deadline, end, received) == Collect(old(Connection()), deadline, end, [])
        decreases |Unread(Connection())|
      {
        var now := kernel.now;
        if now >= deadline {
          return None;
        }
        var timeout: DWORD := deadline - now;
        ghost var before := Connection();
        var line := ReadNextLine(timeout);
        if line.None? {
          LastRound(before, deadline, end, received);
          return None;
        }
        if line.value == end {
          LastRound(before, deadline, end, received);
          return Some(received);
        }
        NextRound(before, deadline, end, received);
        received := received + [line.value];
      }
    }

    static method FetchMenuItems(kernel: Kernel, files: seq<wstring>) returns (items: seq<MenuItem>)
      modifies kernel
      ensures (kernel.View(), items) == FetchedMenu(old(kernel.View()), files)
    {
      if files == [] {
        return [];
      }
      var joined := JoinFileNames(files);
      var lines := Request(kernel, GET_MENU + joined, MENU_END);
      if lines.None? {
        return [];
      }
      items := CollectMenuItems(lines.value);
    }

    static method FetchStrings(kernel: Kernel) returns (out: map<wstring, wstring>)
      modifies kernel
      ensures (kernel.View(), out) == FetchedStrings(old(kernel.View()))
    {
      var lines := Request(kernel, GET_STRINGS, STRINGS_END);
      if lines.None? {
        return map[];
      }
      out := CollectStrings(lines.value);
    }

    static method SendCommand(kernel: Kernel, command: wstring, files: seq<wstring>) returns (ok: bool)
      modifies kernel
      ensures (kernel.View(), ok) == SentCommand(old(kernel.View()), command, files)
    {
      var socket := new SocketClient(kernel);
      ok := socket.Connect();
      if !ok {
        return false;
      }
      var joined := JoinFileNames(files);
      ok := socket.SendLine(command + [COLON] + joined);
    }
  }
}
