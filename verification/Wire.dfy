/**
  Commands on the wire: how `sendCommand` prints a command with its files, and how the
  peer's `slotReadSocket` reads the line back.
 */
module Wire {
  import opened Splitting
  import opened Utf
  import opened Grammar

  // -------------------------------------------------------------- printing

  /** `joinFiles` after its loop. */
  function JoinFiles(files: seq<wstring>): (out: wstring) {
    if files == [] then []
    else
      var out := JoinFiles(Front(files));
      (if out != [] then out + [RECORD_SEPARATOR] else out) + Last(files)
  }

  method JoinFileNames(files: seq<wstring>) returns (out: wstring)
    ensures out == JoinFiles(files)
    ensures DropLeadingEmpty(files) == [] ==> out == []
    ensures DropLeadingEmpty(files) != [] ==> out == Join<wchar>(DropLeadingEmpty(files), RECORD_SEPARATOR)
  {
    out := [];
    for i := 0 to |files|
      invariant out == JoinFiles(files[..i])
    {
      assert Front(files[..i + 1]) == files[..i];
      if out != [] {
        out := out + [RECORD_SEPARATOR];
      }
      out := out + files[i];
    }
    assert files[..|files|] == files;
    JoinFilesIsJoin(files);
  }

  /** The line `sendCommand` sends, without its line feed. */
  function CommandLine(command: wstring, files: seq<wstring>): wstring {
    command + [COLON] + JoinFiles(files)
  }

  /** The bytes of a sent line. */
  function LineBytes(line: wstring): bytes {
    Encode(line + [NEWLINE])
  }

  // --------------------------------------------------------------- reading

  datatype Message = Message(command: wstring, files: seq<wstring>)

  /** A received line: the command up to the first colon, the files between record separators. */
  function ReadMessage(text: wstring): (m: Message) {
    var argument := IndexOf<wchar>(text, COLON);
    if argument.None? then Message(text, Split<wchar>([], RECORD_SEPARATOR))
    else Message(text[..argument.value], Split<wchar>(text[argument.value + 1..], RECORD_SEPARATOR))
  }

  function ReadAll(texts: seq<wstring>): (ms: seq<Message>)
    ensures |ms| == |texts| && forall i :: 0 <= i < |texts| ==> ms[i] == ReadMessage(texts[i])
  {
    seq(|texts|, i requires 0 <= i < |texts| => ReadMessage(texts[i]))
  }

  /** What the peer makes of the bytes it received: one message for every complete line. */
  function Received(stream: bytes): seq<Message> {
    ReadAll(DecodeAll(Front(BytePieces(stream))))
  }

  // ----------------------------------------------------- joining the files

  function DropLeadingEmpty(files: seq<wstring>): (rest: seq<wstring>)
    ensures rest != [] ==> rest[0] != []
    ensures |rest| <= |files|
    ensures files != [] && files[0] == [] ==> |rest| < |files|
    ensures files != [] && files[0] != [] ==> rest == files
  {
    if files != [] && files[0] == [] then DropLeadingEmpty(files[1..]) else files
  }

  lemma {:induction false} DropLeadingEmptyStep(files: seq<wstring>, file: wstring)
    ensures var rest := DropLeadingEmpty(files);
            DropLeadingEmpty(files + [file]) ==
            if rest == [] && file == [] then [] else rest + [file]
  {
    if files != [] && files[0] == [] {
      assert (files + [file])[1..] == files[1..] + [file];
      DropLeadingEmptyStep(files[1..], file);
    } else if files == [] {
      assert files + [file] == [file];
      assert [file][1..] == [];
    }
  }

  lemma {:induction false} JoinAppend(parts: seq<wstring>, part: wstring)
    requires parts != []
    ensures Join<wchar>(parts + [part], RECORD_SEPARATOR)
         == Join<wchar>(parts, RECORD_SEPARATOR) + [RECORD_SEPARATOR] + part
  {
    var all := parts + [part];
    if |parts| == 1 {
      assert all[1..] == [part];
    } else {
      assert all[1..] == parts[1..] + [part];
      JoinAppend(parts[1..], part);
      Regroup(parts[0] + [RECORD_SEPARATOR], Join<wchar>(parts[1..], RECORD_SEPARATOR), [RECORD_SEPARATOR], part);
    }
  }

  /** Leading empty names are lost, all others are joined. */
  lemma {:induction false} JoinFilesIsJoin(files: seq<wstring>)
    ensures var rest := DropLeadingEmpty(files);
            JoinFiles(files) == if rest == [] then [] else Join<wchar>(rest, RECORD_SEPARATOR)
    ensures JoinFiles(files) == [] <==> DropLeadingEmpty(files) == []
  {
    if files != [] {
      var front, last := Front(files), Last(files);
      assert files == front + [last];
      JoinFilesIsJoin(front);
      DropLeadingEmptyStep(front, last);
      var rest := DropLeadingEmpty(front);
      if rest != [] {
        JoinAppend(rest, last);
      }
    }
  }

  /** Exactly these selections are still the same after joining and splitting. */
  ghost predicate FilesSurvive(files: seq<wstring>) {
    && files != []
    && AllFree<wchar>(files, RECORD_SEPARATOR)
    && (|files| == 1 || files[0] != [])
  }

  lemma SplitJoinedFiles(files: seq<wstring>)
    ensures Split<wchar>(JoinFiles(files), RECORD_SEPARATOR) == files <==> FilesSurvive(files)
  {
    JoinFilesIsJoin(files);
    var rest, joined := DropLeadingEmpty(files), JoinFiles(files);
    JoinSplit<wchar>(joined, RECORD_SEPARATOR);
    if AllFree<wchar>(files, RECORD_SEPARATOR) {
      DropKeepsFree(files);
      if rest != [] {
        SplitJoin<wchar>(rest, RECORD_SEPARATOR);
      } else {
        SplitFree<wchar>(joined, RECORD_SEPARATOR);
      }
    }
  }

  lemma {:induction false} DropKeepsFree(files: seq<wstring>)
    requires AllFree<wchar>(files, RECORD_SEPARATOR)
    ensures AllFree<wchar>(DropLeadingEmpty(files), RECORD_SEPARATOR)
  {
    if files != [] && files[0] == [] {
      DropKeepsFree(files[1..]);
    }
  }

  lemma {:induction false} JoinFilesContains(files: seq<wstring>, x: wchar)
    requires x != RECORD_SEPARATOR
    ensures x in JoinFiles(files) <==> exists file :: file in files && x in file
  {
    if files != [] {
      JoinFilesContains(Front(files), x);
      InFrontOrLast<wstring>(files);
    }
  }

  lemma {:induction false} JoinFilesWellFormed(files: seq<wstring>)
    ensures WellFormed16(JoinFiles(files)) <==> forall file :: file in files ==> WellFormed16(file)
  {
    if files != [] {
      var front, last := Front(files), Last(files);
      JoinFilesWellFormed(front);
      InFrontOrLast<wstring>(files);
      WellFormedAround(JoinFiles(front), RECORD_SEPARATOR, last);
      assert [] + last == last;
    }
  }

  lemma {:induction false} PiecesWellFormed(text: wstring)
    requires WellFormed16(text)
    ensures forall file :: file in Split<wchar>(text, RECORD_SEPARATOR) ==> WellFormed16(file)
    decreases |text|
  {
    if RECORD_SEPARATOR !in text {
      SplitFree<wchar>(text, RECORD_SEPARATOR);
    } else {
      var head: wstring, rest: wstring := SplitStep<wchar>(text, RECORD_SEPARATOR);
      WellFormedAround(head, RECORD_SEPARATOR, rest);
      PiecesWellFormed(rest);
    }
  }

  // -------------------------------------------------------------- the bytes

  function EncodeAll(texts: seq<wstring>): (parts: seq<bytes>)
    ensures |parts| == |texts| && forall i :: 0 <= i < |texts| ==> parts[i] == Encode(texts[i])
  {
    seq(|texts|, i requires 0 <= i < |texts| => Encode(texts[i]))
  }

  lemma {:induction false} EncodeJoined(files: seq<wstring>)
    requires files != []
    ensures Encode(Join<wchar>(files, RECORD_SEPARATOR)) == Join<byte>(EncodeAll(files), 0x1E)
  {
    if |files| > 1 {
      EncodeJoined(files[1..]);
      EncodeAround(files[0], RECORD_SEPARATOR, Join<wchar>(files[1..], RECORD_SEPARATOR));
      assert EncodeAll(files)[1..] == EncodeAll(files[1..]);
    }
  }

  /** The bytes of a command: UTF-8, a colon, the names between record separators, a line feed. */
  lemma SentBytes(command: wstring, files: seq<wstring>)
    ensures var names := DropLeadingEmpty(files);
            LineBytes(CommandLine(command, files)) ==
            Encode(command) + [0x3A] + (if names == [] then [] else Join<byte>(EncodeAll(names), 0x1E)) + [0x0A]
  {
    var names, joined := DropLeadingEmpty(files), JoinFiles(files);
    JoinFilesIsJoin(files);
    if names != [] {
      EncodeJoined(names);
    }
    EncodeAround(command, COLON, joined);
    var line := CommandLine(command, files);
    EncodeAround(line, NEWLINE, []);
    assert line + [NEWLINE] + [] == line + [NEWLINE];
    assert Encode(line) + [0x0A] + [] == Encode(line) + [0x0A];
  }

  // -------------------------------------------------------- the round trip

  /** The peer reads the scrubbed text of the line, in one piece if it holds no line feed. */
  lemma ReceivedText(line: wstring)
    ensures Received(LineBytes(line)) == ReadAll(TextPieces(Scrub(line)))
  {
    var s := Encode(line);
    EncodeAround(line, NEWLINE, []);
    assert line + [NEWLINE] + [] == line + [NEWLINE];
    assert LineBytes(line) == s + [NEWLINE] + [];
    SplitAround<byte>(s, NEWLINE, []);
    SplitFree<byte>([], NEWLINE);
    assert Front(BytePieces(s) + [[]]) == BytePieces(s);
    SplittingCommutesWithDecoding(s);
    DecodeOfEncode(line);
  }

  lemma ScrubAround(a: wstring, x: byte, b: wstring)
    requires x < 0x80
    ensures Scrub(a + [x] + b) == Scrub(a) + [x] + Scrub(b)
  {
    EncodeAround(a, x, b);
    DecodeAround(Encode(a), x, Encode(b));
    DecodeOfEncode(a);
    DecodeOfEncode(b);
    DecodeOfEncode(a + [x] + b);
  }

  lemma ScrubIsWellFormed(w: wstring)
    ensures WellFormed16(Scrub(w))
  {
    DecodeOfEncode(w);
    DecodeIsWellFormed(Encode(w));
  }

  /** What a command must be for the peer to read it back. */
  ghost predicate CommandSurvives(command: wstring) {
    WellFormed16(command) && NEWLINE !in command && COLON !in command
  }

  ghost predicate SelectionSurvives(files: seq<wstring>) {
    FilesSurvive(files) && forall file :: file in files ==> WellFormed16(file) && NEWLINE !in file
  }

  lemma ReadMessageOf(command: wstring, rest: wstring)
    requires COLON !in command
    ensures ReadMessage(command + [COLON] + rest) == Message(command, Split<wchar>(rest, RECORD_SEPARATOR))
  {
    FirstOccurrence<wchar>(command, COLON, rest);
    Cut<wchar>(command, COLON, rest);
  }

  lemma ReadCommandIsColonFree(text: wstring)
    ensures COLON !in ReadMessage(text).command
  {
  }

  lemma CommandLineLineFeed(command: wstring, files: seq<wstring>)
    ensures NEWLINE in CommandLine(command, files) <==>
            NEWLINE in command || exists file :: file in files && NEWLINE in file
  {
    JoinFilesContains(files, NEWLINE);
  }

  lemma InvokeArrives(command: wstring, files: seq<wstring>)
    requires CommandSurvives(command) && SelectionSurvives(files)
    ensures Received(LineBytes(CommandLine(command, files))) == [Message(command, files)]
  {
    var line := CommandLine(command, files);
    ReceivedText(line);
    JoinFilesWellFormed(files);
    WellFormedAround(command, COLON, JoinFiles(files));
    ScrubIdentity(line);
    CommandLineLineFeed(command, files);
    SplitFree<wchar>(line, NEWLINE);
    ReadMessageOf(command, JoinFiles(files));
    SplitJoinedFiles(files);
  }

  lemma OnlySurvivorsArrive(command: wstring, files: seq<wstring>)
    requires Received(LineBytes(CommandLine(command, files))) == [Message(command, files)]
    ensures CommandSurvives(command) && SelectionSurvives(files)
  {
    var line, joined := CommandLine(command, files), JoinFiles(files);
    var text := Scrub(line);
    ReceivedText(line);
    var pieces := TextPieces(text);
    assert |pieces| == 1;
    JoinSplit<wchar>(text, NEWLINE);
    assert pieces == [text];
    assert ReadAll(pieces)[0] == ReadMessage(text);
    ReadCommandIsColonFree(text);
    ScrubAround(command, COLON, joined);
    ScrubKeepsAscii(command, COLON);
    ReadMessageOf(Scrub(command), Scrub(joined));
    ScrubIdentity(command);
    ScrubIsWellFormed(joined);
    PiecesWellFormed(Scrub(joined));
    JoinFilesWellFormed(files);
    ScrubIdentity(joined);
    SplitJoinedFiles(files);
    ScrubKeepsAscii(line, NEWLINE);
    CommandLineLineFeed(command, files);
  }

  /**
    The invoke round trip: the peer reads the bytes as exactly one message with exactly this
    command and these files if and only if the command is well-formed, has no line feed and
    no colon, and the selection is one that survives.
   */
  lemma InvokeRoundTrip(command: wstring, files: seq<wstring>)
    ensures Received(LineBytes(CommandLine(command, files))) == [Message(command, files)]
       <==> CommandSurvives(command) && SelectionSurvives(files)
  {
    if CommandSurvives(command) && SelectionSurvives(files) {
      InvokeArrives(command, files);
    } else if Received(LineBytes(CommandLine(command, files))) == [Message(command, files)] {
      OnlySurvivorsArrive(command, files);
    }
  }

  // ------------------------------------------------- what the client reads

  type Folding = wstring -> wstring

  /**
    What is assumed of normalisation form C: the separators of a line stay, none is added, and
    it works on the text between them.
   */
  ghost predicate IsNormaliser(nfc: Folding) {
    && nfc([]) == []
    && NormalisesAround(nfc, COLON) && NormalisesAround(nfc, RECORD_SEPARATOR) && NormalisesAround(nfc, NEWLINE)
  }

  ghost predicate NormalisesAround(nfc: Folding, x: wchar) {
    && (forall a, b :: nfc(a + [x] + b) == nfc(a) + [x] + nfc(b))
    && (forall a :: x !in a ==> x !in nfc(a))
  }

  /** `chop(1)` */
  function Chop(text: wstring): wstring {
    if text == [] then [] else Front(text)
  }

  const BYTE_ORDER_MARK: wchar := 0xFEFF

  /** `fromUtf8` drops a byte order mark at the start. */
  function WithoutMark(text: wstring): wstring {
    if text != [] && text[0] == BYTE_ORDER_MARK then text[1..] else text
  }

  /** `slotReadSocket`: the line is normalised with its line feed, then split; the command is upper-cased. */
  function ClientReads(text: wstring, nfc: Folding, upper: Folding): Message {
    var m := ReadMessage(Chop(nfc(WithoutMark(text + [NEWLINE]))));
    m.(command := upper(m.command))
  }

  function ClientReceives(stream: bytes, nfc: Folding, upper: Folding): (ms: seq<Message>)
    ensures var texts := DecodeAll(Front(BytePieces(stream)));
            |ms| == |texts| && forall i :: 0 <= i < |texts| ==> ms[i] == ClientReads(texts[i], nfc, upper)
  {
    var texts := DecodeAll(Front(BytePieces(stream)));
    seq(|texts|, i requires 0 <= i < |texts| => ClientReads(texts[i], nfc, upper))
  }

  function Folded(m: Message, nfc: Folding, upper: Folding): Message {
    Message(upper(nfc(WithoutMark(m.command))), AllNormalised(m.files, nfc))
  }

  function AllNormalised(parts: seq<wstring>, nfc: Folding): (r: seq<wstring>)
    ensures |r| == |parts| && forall i :: 0 <= i < |parts| ==> r[i] == nfc(parts[i])
  {
    seq(|parts|, i requires 0 <= i < |parts| => nfc(parts[i]))
  }

  lemma NormalisedStep(first: wstring, rest: seq<wstring>, nfc: Folding)
    ensures AllNormalised([first] + rest, nfc) == [nfc(first)] + AllNormalised(rest, nfc)
  {
  }

  lemma {:induction false} SplitNormalised(s: wstring, x: wchar, nfc: Folding)
    requires NormalisesAround(nfc, x)
    ensures Split<wchar>(nfc(s), x) == AllNormalised(Split<wchar>(s, x), nfc)
    decreases |s|
  {
    if x !in s {
      SplitFree<wchar>(s, x);
      SplitFree<wchar>(nfc(s), x);
    } else {
      var head: wstring, rest: wstring := SplitStep<wchar>(s, x);
      assert nfc(head + [x] + rest) == nfc(head) + [x] + nfc(rest);
      SplitFirst<wchar>(nfc(head), x, nfc(rest));
      SplitNormalised(rest, x, nfc);
      NormalisedStep(head, Split<wchar>(rest, x), nfc);
    }
  }

  lemma ReadNormalised(text: wstring, nfc: Folding)
    requires IsNormaliser(nfc)
    ensures var m := ReadMessage(text);
            ReadMessage(nfc(text)) == Message(nfc(m.command), AllNormalised(m.files, nfc))
  {
    if COLON in text {
      var command: wstring, rest: wstring := FirstCut<wchar>(text, COLON);
      assert nfc(command + [COLON] + rest) == nfc(command) + [COLON] + nfc(rest);
      ReadMessageOf(command, rest);
      ReadMessageOf(nfc(command), nfc(rest));
      SplitNormalised(rest, RECORD_SEPARATOR, nfc);
    } else {
      NotFound<wchar>(text, COLON);
      NotFound<wchar>(nfc(text), COLON);
      SplitFree<wchar>([], RECORD_SEPARATOR);
    }
  }

  /** A mark at the start of a line is one at the start of its command. */
  lemma MarkIsInCommand(text: wstring)
    ensures var m := ReadMessage(text); ReadMessage(WithoutMark(text)) == m.(command := WithoutMark(m.command))
  {
    if text != [] && text[0] == BYTE_ORDER_MARK && COLON in text {
      var command: wstring, rest: wstring := FirstCut<wchar>(text, COLON);
      assert command[0] == text[0];
      assert text[1..] == command[1..] + [COLON] + rest;
      ReadMessageOf(command, rest);
      ReadMessageOf(command[1..], rest);
    }
  }

  lemma ClientReadsFolded(text: wstring, nfc: Folding, upper: Folding)
    requires IsNormaliser(nfc)
    ensures ClientReads(text, nfc, upper) == Folded(ReadMessage(text), nfc, upper)
  {
    var line := WithoutMark(text);
    assert WithoutMark(text + [NEWLINE]) == line + [NEWLINE] + [];
    assert nfc(line + [NEWLINE] + []) == nfc(line) + [NEWLINE] + nfc([]);
    assert Chop(nfc(WithoutMark(text + [NEWLINE]))) == nfc(line);
    ReadNormalised(line, nfc);
    MarkIsInCommand(text);
  }

  /**
    For every stream: normalising first and splitting then, as the client does, is splitting
    first and folding the commands and files.
   */
  lemma FoldingCommutes(stream: bytes, nfc: Folding, upper: Folding)
    requires IsNormaliser(nfc)
    ensures var read, ms := ClientReceives(stream, nfc, upper), Received(stream);
            |read| == |ms| && forall i :: 0 <= i < |ms| ==> read[i] == Folded(ms[i], nfc, upper)
  {
    var texts := DecodeAll(Front(BytePieces(stream)));
    forall i | 0 <= i < |texts|
      ensures ClientReads(texts[i], nfc, upper) == Folded(ReadMessage(texts[i]), nfc, upper)
    {
      ClientReadsFolded(texts[i], nfc, upper);
    }
  }

  /**
    So what the client reads of a surviving command is that command, without a byte order mark at
    its start, and those files, folded.
   */
  lemma ClientReadsCommand(command: wstring, files: seq<wstring>, nfc: Folding, upper: Folding)
    requires IsNormaliser(nfc) && CommandSurvives(command) && SelectionSurvives(files)
    ensures ClientReceives(LineBytes(CommandLine(command, files)), nfc, upper)
         == [Message(upper(nfc(WithoutMark(command))), AllNormalised(files, nfc))]
  {
    InvokeArrives(command, files);
    FoldingCommutes(LineBytes(CommandLine(command, files)), nfc, upper);
  }

  /** Every command the menu can hold survives: it was read from a line of the pipe and parsed. */
  lemma ParsedCommandSurvives(lineBytes: bytes)
    requires NEWLINE !in lineBytes
    requires MENU_ITEM_PREFIX <= Decode(lineBytes) && ParseMenuItem(Decode(lineBytes)).Some?
    ensures CommandSurvives(ParseMenuItem(Decode(lineBytes)).value.command)
  {
    var text := Decode(lineBytes);
    var flags := ParsedIsPrinted(text);
    DecodeKeepsAscii(lineBytes, NEWLINE);
    DecodeIsWellFormed(lineBytes);
    var item := ParseMenuItem(text).value;
    PrintedCommandSurvives(item.command, flags + [COLON] + item.title);
  }

  lemma PrintedCommandSurvives(command: wstring, rest: wstring)
    requires var text := MENU_ITEM_PREFIX + (command + [COLON] + rest); WellFormed16(text) && NEWLINE !in text
    ensures WellFormed16(command) && NEWLINE !in command
  {
    var n := |MENU_ITEM_PREFIX| - 1;
    var body := command + [COLON] + rest;
    assert MENU_ITEM_PREFIX == MENU_ITEM_PREFIX[..n] + [COLON];
    WellFormedAround(MENU_ITEM_PREFIX[..n], COLON, body);
    WellFormedAround(command, COLON, rest);
  }
}
