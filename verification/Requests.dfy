/**
  What whole requests guarantee: from the bytes of a reply to the menu, and from an item of
  the menu to the message the client reads when it is invoked.
 */
module Requests {
  import opened Options
  import opened Splitting
  import opened Utf
  import opened Grammar
  import opened MenuList
  import opened PrintedMenus
  import opened Wire
  import opened Pipe
  import opened SocketClients

  /** The reply lines in the bytes the next peer sends, read in one go. */
  function PeerReply(w: World, end: wstring): Option<seq<wstring>> {
    Reply(Stream(NextPeer(w).receiving), end)
  }

  /** The peer has a free pipe within 100 ms, and takes all these bytes within a second. */
  predicate TakesLine(p: Peer, data: bytes) {
    && p.present && p.busy <= 100 && p.opens
    && p.sending != []
    && var op := p.sending[0];
       op.Issued? && !op.waitFails && (op.sync || op.delay <= 1000) && !op.fails && op.moved == |data|
  }

  lemma TakesLineExactly(p: Peer, data: bytes)
    ensures TakesLine(p, data) <==> Connects(p) && Sends(NextWrite(p), data)
  {
  }

  /** The peer listens, takes the whole request, and sends its reply without faults or long delays. */
  ghost predicate Answers(w: World, message: wstring, end: wstring) {
    && TakesLine(NextPeer(w), LineBytes(message))
    && exists n :: HealthyReply(ReplyLink(w, message), 2000, end, n)
  }

  /** A request returns the peer's reply or nothing, and the reply whenever the peer answers. */
  lemma RequestIsExact(w: World, message: wstring, end: wstring)
    ensures var lines := Requested(w, message, end).1;
            && (lines.Some? ==> lines == PeerReply(w, end))
            && (Answers(w, message, end) ==> lines.Some? && lines == PeerReply(w, end))
  {
    var l := ReplyLink(w, message);
    var deadline := l.now + REQUEST_TIMEOUT;
    assert Unread(l) == Stream(l.script);
    var lines := Requested(w, message, end).1;
    if lines.Some? {
      CollectedIsReply(l, deadline, end, []);
      NothingBefore(PeerReply(w, end));
    }
    if Answers(w, message, end) {
      TakesLineExactly(NextPeer(w), LineBytes(message));
      var n :| HealthyReply(l, 2000, end, n);
      HealthyReplyIsReturned(l, deadline, end, n);
    }
  }

  /**
    One connection, at most one line sent. Without the whole line nothing is returned; with it
    the peer has read exactly the request.
   */
  lemma RequestSendsOneLine(w: World, message: wstring, end: wstring)
    ensures var r := Requested(w, message, end);
            && r.0.peers == Rest(w.peers)
            && (!Connects(NextPeer(w)) ==> r.0.wires == w.wires && r.1.None?)
            && (Connects(NextPeer(w)) ==> (
                  && |r.0.wires| == |w.wires| + 1
                  && Front(r.0.wires) == w.wires
                  && Last(r.0.wires) <= LineBytes(message)))
            && (r.1.Some? ==> r.0.wires == w.wires + [LineBytes(message)])
  {
    var p, data := NextPeer(w), LineBytes(message);
    if Sends(NextWrite(p), data) {
      assert data[..|data|] == data;
    }
  }

  /**
    How long a caller of the cache can be held up: the connect, write and request timeouts,
    k - 1 times the timeout of the last `readLine`, where `k` is the number of reads it waited
    for, and the time cancelled operations took to end.
   */
  lemma RequestDuration(w: World, message: wstring, end: wstring)
    ensures var l := ReplyLink(w, message);
            var calls := Calls(l, l.now + REQUEST_TIMEOUT, end);
            && calls != []
            && Requested(w, message, end).0.now
               <= LatestEnd(w.now + 100 + 1000 + Lingered(NextWrite(NextPeer(w)), 1000) + 2000, Last(calls))
  {
    var l := ReplyLink(w, message);
    var deadline, latest := l.now + REQUEST_TIMEOUT, w.now + SendingBound(w) + REQUEST_TIMEOUT;
    SendingTime(w, message);
    RequestTime(l, deadline, end, []);
    LaterDeadline(deadline, latest, Last(Calls(l, deadline, end)));
    RequestEnds(w, message, end);
  }

  /** The time until the request is sent. */
  function SendingBound(w: World): nat {
    CONNECT_TIMEOUT + WRITE_TIMEOUT + Lingered(NextWrite(NextPeer(w)), WRITE_TIMEOUT)
  }

  lemma LaterDeadline(a: nat, b: nat, last: Call)
    requires a <= b
    ensures a <= LatestEnd(a, last) <= LatestEnd(b, last)
  {
  }

  lemma SendingTime(w: World, message: wstring)
    ensures ReplyLink(w, message).now <= w.now + SendingBound(w)
  {
  }

  /** A request ends when it cannot connect or send, or when its collection ends. */
  lemma RequestEnds(w: World, message: wstring, end: wstring)
    ensures var l, now := ReplyLink(w, message), Requested(w, message, end).0.now;
            if TakesLine(NextPeer(w), LineBytes(message))
            then now == Collect(l, l.now + REQUEST_TIMEOUT, end, []).1.now
            else now <= l.now
  {
    TakesLineExactly(NextPeer(w), LineBytes(message));
  }

  /** `fetchMenuItems` is the reference menu of the peer's reply, or empty. */
  lemma FetchedMenuIsReference(w: World, files: seq<wstring>)
    requires files != []
    ensures var items, reply := FetchedMenu(w, files).1, PeerReply(w, MENU_END);
            && (items == [] || (reply.Some? && items == Reference(reply.value)))
            && (!Connects(NextPeer(w)) ==> items == [])
            && (Answers(w, GET_MENU + JoinFiles(files), MENU_END) ==> reply.Some? && items == Reference(reply.value))
  {
    RequestIsExact(w, GET_MENU + JoinFiles(files), MENU_END);
    var lines := Requested(w, GET_MENU + JoinFiles(files), MENU_END).1;
    if lines.Some? {
      NormalisedIsReference(lines.value);
    }
    if PeerReply(w, MENU_END).Some? {
      NormalisedIsReference(PeerReply(w, MENU_END).value);
    }
  }

  /** A peer that prints a menu and its end marker is asked for it, and that menu is what comes back. */
  lemma FetchedMenuIsPrinted(w: World, files: seq<wstring>, printed: seq<PrintedLine>)
    requires files != [] && ArePrintable(printed)
    requires PeerReply(w, Wide("GET_MENU_ITEMS:END")) == Some(Texts(printed))
    ensures FetchedMenu(w, files).1 == [] || FetchedMenu(w, files).1 == Menu(printed)
    ensures Answers(w, Wide("GET_MENU_ITEMS:") + JoinFiles(files), Wide("GET_MENU_ITEMS:END")) ==>
              FetchedMenu(w, files).1 == Menu(printed)
  {
    RequestIsExact(w, GET_MENU + JoinFiles(files), MENU_END);
    NormalisedIsMenu(printed);
  }

  /** `fetchStrings` is the map of the peer's reply, or empty. */
  lemma FetchedStringsAreReplied(w: World)
    ensures var strings, reply := FetchedStrings(w).1, PeerReply(w, Wide("GET_STRINGS:END"));
            && (strings == map[] || (reply.Some? && strings == Strings(reply.value)))
            && (Answers(w, Wide("GET_STRINGS:"), Wide("GET_STRINGS:END")) ==>
                  reply.Some? && strings == Strings(reply.value))
  {
    RequestIsExact(w, GET_STRINGS, STRINGS_END);
  }

  /** `sendCommand` succeeds exactly if the peer takes the whole line in time. */
  lemma CommandIsSentExactly(w: World, command: wstring, files: seq<wstring>)
    ensures var r, data := SentCommand(w, command, files), LineBytes(CommandLine(command, files));
            && (r.1 <==> TakesLine(NextPeer(w), data))
            && (r.1 ==> r.0.wires == w.wires + [data])
  {
    var data := LineBytes(CommandLine(command, files));
    TakesLineExactly(NextPeer(w), data);
    assert data[..|data|] == data;
  }

  lemma {:induction false} AsciiIsWellFormed(text: wstring)
    requires forall i :: 0 <= i < |text| ==> text[i] < 0x80
    ensures WellFormed16(text)
    decreases |text|
  {
    if text != [] {
      AsciiIsWellFormed(text[1..]);
    }
  }

  lemma PlainCommandSurvives(s: string)
    requires IsAscii(s) && '\n' !in s && ':' !in s
    ensures CommandSurvives(Wide(s))
  {
    AsciiIsWellFormed(Wide(s));
  }

  lemma WideWithColon(s: string)
    requires IsAscii(s)
    ensures Wide(s + ":") == Wide(s) + [COLON]
  {
  }

  lemma MenuRequestLine(command: wstring)
    requires command == Wide("GET_MENU_ITEMS")
    ensures GET_MENU == command + [COLON] && CommandSurvives(command)
  {
    WideWithColon("GET_MENU_ITEMS");
    assert "GET_MENU_ITEMS" + ":" == "GET_MENU_ITEMS:";
    PlainCommandSurvives("GET_MENU_ITEMS");
  }

  lemma StringRequestLine(command: wstring)
    requires command == Wide("GET_STRINGS")
    ensures GET_STRINGS == command + [COLON] && CommandSurvives(command)
  {
    WideWithColon("GET_STRINGS");
    assert "GET_STRINGS" + ":" == "GET_STRINGS:";
    PlainCommandSurvives("GET_STRINGS");
  }

  /** A request of a command with files that is answered was read as that exactly if the files survive. */
  lemma RequestArrives(w: World, command: wstring, files: seq<wstring>, end: wstring)
    requires CommandSurvives(command) && Requested(w, CommandLine(command, files), end).1.Some?
    ensures var wires := Requested(w, CommandLine(command, files), end).0.wires;
            && wires != [] && Front(wires) == w.wires
            && (Received(Last(wires)) == [Message(command, files)] <==> SelectionSurvives(files))
  {
    RequestSendsOneLine(w, CommandLine(command, files), end);
    InvokeRoundTrip(command, files);
  }

  /** The client is asked about exactly the selection if and only if the selection survives. */
  lemma MenuRequestArrives(w: World, files: seq<wstring>, command: wstring)
    requires files != [] && Requested(w, GET_MENU + JoinFiles(files), MENU_END).1.Some?
    requires command == Wide("GET_MENU_ITEMS")
    ensures var wires := FetchedMenu(w, files).0.wires;
            && wires != [] && Front(wires) == w.wires
            && (Received(Last(wires)) == [Message(command, files)] <==> SelectionSurvives(files))
  {
    MenuRequestLine(command);
    RequestArrives(w, command, files, MENU_END);
  }

  /** The client reads the request for the strings, without an argument. */
  lemma StringRequestArrives(w: World, command: wstring)
    requires Requested(w, GET_STRINGS, STRINGS_END).1.Some? && command == Wide("GET_STRINGS")
    ensures var wires := FetchedStrings(w).0.wires;
            wires != [] && Front(wires) == w.wires && Received(Last(wires)) == [Message(command, [[]])]
  {
    StringRequestLine(command);
    var none: seq<wstring> := [[]];
    NoNameSurvives(none);
    assert CommandLine(command, none) == GET_STRINGS;
    RequestArrives(w, command, none, STRINGS_END);
  }

  lemma NoNameSurvives(files: seq<wstring>)
    requires files == [[]]
    ensures SelectionSurvives(files) && JoinFiles(files) == []
  {
  }

  // ---------------------------------------------- from the menu to invoke

  /** Every item of a menu is a separator or stands on one of the lines. */
  lemma {:induction false} ItemHasLine(lines: seq<wstring>, k: nat)
    requires k < |Accumulated(lines)|
    ensures var item := Accumulated(lines)[k];
            item.separator || exists i :: 0 <= i < |lines| && Classify(lines[i]) == Item(item)
  {
    var front, n := Accumulated(Front(lines)), |lines| - 1;
    var item := Accumulated(lines)[k];
    if k < |front| {
      assert item == front[k];
      ItemHasLine(Front(lines), k);
      if !item.separator {
        var i :| 0 <= i < n && Classify(Front(lines)[i]) == Item(item);
        assert Classify(lines[i]) == Item(item);
      }
    } else if !item.separator {
      assert Classify(lines[n]) == Item(item);
    }
  }

  /** Every complete line of a stream is the decoded text of newline-free bytes. */
  lemma CompleteLineWasRead(s: bytes, i: nat) returns (raw: bytes)
    requires i < |CompleteLines(s)|
    ensures NEWLINE !in raw && CompleteLines(s)[i] == Decode(raw)
  {
    SplittingCommutesWithDecoding(s);
    JoinSplit<byte>(s, NEWLINE);
    raw := BytePieces(s)[i];
  }

  lemma ReplyLine(s: bytes, end: wstring, i: nat)
    requires Reply(s, end).Some? && i < |Reply(s, end).value|
    ensures i < |CompleteLines(s)| && Reply(s, end).value[i] == CompleteLines(s)[i]
  {
  }

  lemma FetchedItem(w: World, files: seq<wstring>, k: nat)
    requires k < |FetchedMenu(w, files).1|
    ensures var reply := PeerReply(w, MENU_END);
            reply.Some? && k < |Accumulated(reply.value)| && FetchedMenu(w, files).1[k] == Accumulated(reply.value)[k]
  {
    RequestIsExact(w, GET_MENU + JoinFiles(files), MENU_END);
  }

  /** Every command the menu holds is one the peer reads back. */
  lemma MenuCommandsSurvive(w: World, files: seq<wstring>, k: nat)
    requires k < |FetchedMenu(w, files).1| && !FetchedMenu(w, files).1[k].separator
    ensures CommandSurvives(FetchedMenu(w, files).1[k].command)
  {
    var item := FetchedMenu(w, files).1[k];
    FetchedItem(w, files, k);
    var s := Stream(NextPeer(w).receiving);
    var lines := PeerReply(w, MENU_END).value;
    ItemHasLine(lines, k);
    var i :| 0 <= i < |lines| && Classify(lines[i]) == Item(item);
    ReplyLine(s, MENU_END, i);
    var raw := CompleteLineWasRead(s, i);
    ParsedCommandSurvives(raw);
  }

  /**
    Invoking an item of a fetched menu: if `sendCommand` reports success, the peer reads one
    message with exactly the item's command and exactly the selected files, if and only if
    the selection survives joining and encoding.
   */
  lemma InvokedItemArrives(menuWorld: World, w: World, files: seq<wstring>, k: nat, selection: seq<wstring>)
    requires k < |FetchedMenu(menuWorld, files).1| && !FetchedMenu(menuWorld, files).1[k].separator
    requires SentCommand(w, FetchedMenu(menuWorld, files).1[k].command, selection).1
    ensures var command := FetchedMenu(menuWorld, files).1[k].command;
            var sent := Last(SentCommand(w, command, selection).0.wires);
            Received(sent) == [Message(command, selection)] <==> SelectionSurvives(selection)
  {
    var command := FetchedMenu(menuWorld, files).1[k].command;
    MenuCommandsSurvive(menuWorld, files, k);
    var data := LineBytes(CommandLine(command, selection));
    assert data[..|data|] == data;
    InvokeRoundTrip(command, selection);
  }
}
