/**
  The grammar of the socket api lines: MENU_ITEM and STRING lines are parsed, commands and
  selections are printed.
 */
module Grammar {
  import opened Options
  import opened Splitting
  import opened Utf

  predicate IsAscii(s: string) {
    forall i :: 0 <= i < |s| ==> s[i] as int < 0x80
  }

  /** A `L"..."` literal. */
  function Wide(s: string): (w: wstring)
    requires IsAscii(s)
    ensures |w| == |s| && forall i :: 0 <= i < |s| ==> w[i] == s[i] as int
  {
    seq<wchar>(|s|, i requires 0 <= i < |s| => s[i] as int)
  }

  const COLON: wchar := 0x3A
  const RECORD_SEPARATOR: wchar := 0x1E
  const DISABLED_FLAG: wchar := 0x64
  const MENU_ITEM_PREFIX: wstring := Wide("MENU_ITEM:")
  const MENU_SEPARATOR_PREFIX: wstring := Wide("MENU_SEPARATOR:")
  const MENU_END: wstring := Wide("GET_MENU_ITEMS:END")
  const GET_MENU: wstring := Wide("GET_MENU_ITEMS:")
  const STRING_PREFIX: wstring := Wide("STRING:")
  const STRINGS_END: wstring := Wide("GET_STRINGS:END")
  const GET_STRINGS: wstring := Wide("GET_STRINGS:")

  // ------------------------------------------------------- MENU_ITEM lines

  datatype MenuItem = MenuItem(command: wstring, title: wstring, enabled: bool, separator: bool)

  const SEPARATOR_ITEM := MenuItem([], [], true, true)

  function ParseMenuItem(line: wstring): (item: Option<MenuItem>)
    requires MENU_ITEM_PREFIX <= line
  {
    ParseBody(line[|MENU_ITEM_PREFIX|..])
  }

  /** [command]:[flags]:[title], the part after the prefix. */
  function ParseBody(body: wstring): (item: Option<MenuItem>) {
    var commandEnd := IndexOf<wchar>(body, COLON);
    if commandEnd.None? then None
    else
      var flagsEnd := IndexOf<wchar>(body, COLON, commandEnd.value + 1);
      if flagsEnd.None? then None
      else
        var flags := body[commandEnd.value + 1..flagsEnd.value];
        Some(MenuItem(body[..commandEnd.value], body[flagsEnd.value + 1..], DISABLED_FLAG !in flags, false))
  }

  function PrintMenuItem(command: wstring, flags: wstring, title: wstring): wstring {
    MENU_ITEM_PREFIX + (command + [COLON] + (flags + [COLON] + title))
  }

  lemma WithoutPrefix(body: wstring)
    ensures ParseMenuItem(MENU_ITEM_PREFIX + body) == ParseBody(body)
  {
    assert (MENU_ITEM_PREFIX + body)[|MENU_ITEM_PREFIX|..] == body;
  }

  /** Cutting out what lies between two separators. */
  lemma CutTwice<T>(a: seq<T>, x: T, b: seq<T>, c: seq<T>)
    ensures var s, j := a + [x] + (b + [x] + c), |a| + 1 + |b|;
            j < |s| && s[|a| + 1..j] == b && s[j + 1..] == c
  {
  }

  lemma ParseOneColon(command: wstring, rest: wstring)
    requires COLON !in command && COLON !in rest
    ensures ParseBody(command + [COLON] + rest) == None
  {
    var body, from := command + [COLON] + rest, |command| + 1;
    FirstOccurrence<wchar>(command, COLON, rest);
    Cut<wchar>(command, COLON, rest);
    IndexOfShift<wchar>(body, COLON, from, 0);
    NotFound<wchar>(rest, COLON);
  }

  lemma TwoColons(command: wstring, flags: wstring, title: wstring)
    requires COLON !in command && COLON !in flags
    ensures var body, from := command + [COLON] + (flags + [COLON] + title), |command| + 1;
            IndexOf<wchar>(body, COLON) == Some(|command|) && from <= |body| &&
            IndexOf<wchar>(body, COLON, from) == Some(from + |flags|)
  {
    var rest := flags + [COLON] + title;
    FirstOccurrence<wchar>(command, COLON, rest);
    Cut<wchar>(command, COLON, rest);
    FirstOccurrence<wchar>(flags, COLON, title);
    IndexOfShift<wchar>(command + [COLON] + rest, COLON, |command| + 1, 0);
  }

  lemma ParseTwoColons(command: wstring, flags: wstring, title: wstring)
    requires COLON !in command && COLON !in flags
    ensures ParseBody(command + [COLON] + (flags + [COLON] + title))
         == Some(MenuItem(command, title, DISABLED_FLAG !in flags, false))
  {
    TwoColons(command, flags, title);
    Cut<wchar>(command, COLON, flags + [COLON] + title);
    CutTwice<wchar>(command, COLON, flags, title);
  }

  lemma ParseNoColon(body: wstring)
    requires COLON !in body
    ensures ParseBody(body) == None
  {
    NotFound<wchar>(body, COLON);
  }

  /** Parsing inverts printing; the title may hold colons. */
  lemma ParsePrinted(command: wstring, flags: wstring, title: wstring)
    requires COLON !in command && COLON !in flags
    ensures ParseMenuItem(PrintMenuItem(command, flags, title))
         == Some(MenuItem(command, title, DISABLED_FLAG !in flags, false))
  {
    WithoutPrefix(command + [COLON] + (flags + [COLON] + title));
    ParseTwoColons(command, flags, title);
  }

  /** What is accepted was printed, from a colon-free command and colon-free flags. */
  lemma ParsedIsPrinted(line: wstring) returns (flags: wstring)
    requires MENU_ITEM_PREFIX <= line && ParseMenuItem(line).Some?
    ensures var item := ParseMenuItem(line).value;
            && COLON !in item.command && COLON !in flags && !item.separator
            && item.enabled == (DISABLED_FLAG !in flags)
            && line == PrintMenuItem(item.command, flags, item.title)
  {
    var body := line[|MENU_ITEM_PREFIX|..];
    assert line == MENU_ITEM_PREFIX + body;
    WithoutPrefix(body);
    if COLON !in body {
      ParseNoColon(body);
    }
    var command: wstring, rest: wstring := FirstCut<wchar>(body, COLON);
    if COLON !in rest {
      ParseOneColon(command, rest);
    }
    var title: wstring;
    flags, title := FirstCut<wchar>(rest, COLON);
    ParsePrinted(command, flags, title);
  }

  /**
    Parsing by one-shot splitting: a MENU_ITEM line is accepted exactly when two colons
    follow the prefix, the first two pieces are command and flags, all the rest is title.
   */
  lemma ParseBySplitting(body: wstring)
    ensures var parts := Split<wchar>(body, COLON);
            ParseMenuItem(MENU_ITEM_PREFIX + body) ==
            if |parts| < 3 then None
            else Some(MenuItem(parts[0], Join<wchar>(parts[2..], COLON), DISABLED_FLAG !in parts[1], false))
  {
    WithoutPrefix(body);
    if COLON !in body {
      ParseNoColon(body);
      SplitFree<wchar>(body, COLON);
    } else {
      var command: wstring, rest: wstring := SplitStep<wchar>(body, COLON);
      if COLON !in rest {
        ParseOneColon(command, rest);
        SplitFree<wchar>(rest, COLON);
      } else {
        var flags: wstring, title: wstring := SplitStep<wchar>(rest, COLON);
        ParsePrinted(command, flags, title);
        JoinSplit<wchar>(title, COLON);
        var tail := Split<wchar>(title, COLON);
        DropTwo(command, flags, tail);
      }
    }
  }

  lemma DropTwo<T>(a: T, b: T, rest: seq<T>)
    ensures var s := [a] + ([b] + rest); |s| == 2 + |rest| && s[0] == a && s[1] == b && s[2..] == rest
  {
  }

  /** A line decomposes in one way only. */
  lemma PrintIsInjective(c1: wstring, f1: wstring, t1: wstring, c2: wstring, f2: wstring, t2: wstring)
    requires COLON !in c1 && COLON !in f1 && COLON !in c2 && COLON !in f2
    requires PrintMenuItem(c1, f1, t1) == PrintMenuItem(c2, f2, t2)
    ensures c1 == c2 && f1 == f2 && t1 == t2
  {
    var r1, r2 := f1 + [COLON] + t1, f2 + [COLON] + t2;
    var b1, b2 := c1 + [COLON] + r1, c2 + [COLON] + r2;
    assert b1 == PrintMenuItem(c1, f1, t1)[|MENU_ITEM_PREFIX|..];
    assert b2 == PrintMenuItem(c2, f2, t2)[|MENU_ITEM_PREFIX|..];
    SplitsOnce(c1, r1, c2, r2);
    SplitsOnce(f1, t1, f2, t2);
  }

  lemma SplitsOnce(a1: wstring, b1: wstring, a2: wstring, b2: wstring)
    requires COLON !in a1 && COLON !in a2 && a1 + [COLON] + b1 == a2 + [COLON] + b2
    ensures a1 == a2 && b1 == b2
  {
    FirstOccurrence<wchar>(a1, COLON, b1);
    FirstOccurrence<wchar>(a2, COLON, b2);
    Cut<wchar>(a1, COLON, b1);
    Cut<wchar>(a2, COLON, b2);
  }

  // ----------------------------------------------------------- STRING lines

  function ParseString(line: wstring): (entry: Option<(wstring, wstring)>) {
    if !(STRING_PREFIX <= line) then None
    else
      var keyEnd := IndexOf<wchar>(line, COLON, |STRING_PREFIX|);
      if keyEnd.None? then None
      else Some((line[|STRING_PREFIX|..keyEnd.value], line[keyEnd.value + 1..]))
  }

  /**
    Parsing by one-shot splitting: a line is accepted exactly if it begins with STRING: and a
    colon follows; the first piece is the key, all the rest is the value.
   */
  lemma ParseStringBySplitting(line: wstring)
    ensures ParseString(line).Some? <==> Wide("STRING:") <= line && 0x3A in line[7..]
    ensures ParseString(line).Some? ==>
              var parts := Split<wchar>(line[7..], 0x3A);
              ParseString(line).value == (parts[0], Join<wchar>(parts[1..], 0x3A))
  {
    if STRING_PREFIX <= line {
      var n := |STRING_PREFIX|;
      var body := line[n..];
      assert line == STRING_PREFIX + body;
      if COLON in body {
        var key: wstring, value: wstring := SplitStep<wchar>(body, COLON);
        ParsePrintedString(key, value);
        JoinSplit<wchar>(value, COLON);
      } else {
        assert forall k :: n <= k < |line| ==> line[k] == body[k - n];
      }
    }
  }

  function PrintString(key: wstring, value: wstring): wstring {
    STRING_PREFIX + (key + [COLON] + value)
  }

  predicate Defines(line: wstring, key: wstring) {
    ParseString(line).Some? && ParseString(line).value.0 == key
  }

  /** The map after the lines; an entry that is already there stays. */
  function Strings(lines: seq<wstring>): (m: map<wstring, wstring>) {
    if lines == [] then map[]
    else
      var m := Strings(Front(lines));
      var entry := ParseString(Last(lines));
      if entry.None? || entry.value.0 in m then m else m[entry.value.0 := entry.value.1]
  }

  /** The loop of `fetchStrings` over the received lines. */
  method CollectStrings(lines: seq<wstring>) returns (out: map<wstring, wstring>)
    ensures out == Strings(lines)
  {
    out := map[];
    for i := 0 to |lines|
      invariant out == Strings(lines[..i])
    {
      assert Front(lines[..i + 1]) == lines[..i];
      var line := lines[i];
      if !(STRING_PREFIX <= line) {
        continue;
      }
      var keyEnd := IndexOf<wchar>(line, COLON, |STRING_PREFIX|);
      if keyEnd.None? {
        continue;
      }
      var key := line[|STRING_PREFIX|..keyEnd.value];
      if key !in out {
        out := out[key := line[keyEnd.value + 1..]];
      }
    }
    assert lines[..|lines|] == lines;
  }

  lemma ParsePrintedString(key: wstring, value: wstring)
    requires COLON !in key
    ensures ParseString(PrintString(key, value)) == Some((key, value))
  {
    var line := PrintString(key, value);
    var n := |STRING_PREFIX|;
    assert line[n..] == key + [COLON] + value;
    IndexOfShift<wchar>(line, COLON, n, 0);
    FirstOccurrence<wchar>(key, COLON, value);
    Cut<wchar>(key, COLON, value);
    assert line[n..n + |key|] == line[n..][..|key|];
    assert line[n + |key| + 1..] == line[n..][|key| + 1..];
  }

  /** A key is known exactly when some line defines it, and the first such line decides. */
  lemma {:induction false} FirstDefinitionWins(lines: seq<wstring>, key: wstring)
    ensures key in Strings(lines) <==> exists i :: 0 <= i < |lines| && Defines(lines[i], key)
    ensures forall i :: 0 <= i < |lines| && Defines(lines[i], key)
                     && (forall j :: 0 <= j < i ==> !Defines(lines[j], key))
                     ==> key in Strings(lines) && Strings(lines)[key] == ParseString(lines[i]).value.1
  {
    if lines != [] {
      var front, n := Front(lines), |lines| - 1;
      FirstDefinitionWins(front, key);
      assert forall j :: 0 <= j < n ==> front[j] == lines[j];
      if key in Strings(lines) {
        if key in Strings(front) {
          var i :| 0 <= i < n && Defines(front[i], key);
          assert Defines(lines[i], key);
        } else {
          assert Defines(lines[n], key);
        }
      }
    }
  }

  function PrintStrings(m: map<wstring, wstring>, order: seq<wstring>): (lines: seq<wstring>)
    requires forall i :: 0 <= i < |order| ==> order[i] in m
    ensures |lines| == |order|
    ensures forall i :: 0 <= i < |order| ==> lines[i] == PrintString(order[i], m[order[i]])
  {
    seq(|order|, i requires 0 <= i < |order| => PrintString(order[i], m[order[i]]))
  }

  /** A map with colon-free keys is read back, whatever order (and however often) it is printed in. */
  lemma StringsRoundTrip(m: map<wstring, wstring>, order: seq<wstring>)
    requires forall key :: key in m <==> key in order
    requires forall key :: key in m ==> COLON !in key
    ensures Strings(PrintStrings(m, order)) == m
  {
    var lines := PrintStrings(m, order);
    forall i | 0 <= i < |order|
      ensures ParseString(lines[i]) == Some((order[i], m[order[i]]))
    {
      assert order[i] in order;
      ParsePrintedString(order[i], m[order[i]]);
    }
    forall key
      ensures key in Strings(lines) <==> key in m
      ensures key in m ==> Strings(lines)[key] == m[key]
    {
      StringRoundTrip(m, order, lines, key);
    }
  }

  lemma StringRoundTrip(m: map<wstring, wstring>, order: seq<wstring>, lines: seq<wstring>, key: wstring)
    requires forall k :: k in order ==> k in m
    requires |lines| == |order|
    requires forall i :: 0 <= i < |order| ==> order[i] in m && ParseString(lines[i]) == Some((order[i], m[order[i]]))
    ensures key in Strings(lines) <==> key in order
    ensures key in order ==> Strings(lines)[key] == m[key]
  {
    FirstDefinitionWins(lines, key);
    assert forall i :: 0 <= i < |order| ==> order[i] in order;
    if key in order {
      FirstDefinition(lines, order, key);
    }
  }

  lemma FirstDefinition(lines: seq<wstring>, order: seq<wstring>, key: wstring)
    requires |lines| == |order| && key in order
    requires forall i :: 0 <= i < |order| ==> (Defines(lines[i], key) <==> order[i] == key)
    ensures exists i :: 0 <= i < |lines| && Defines(lines[i], key) && forall j :: 0 <= j < i ==> !Defines(lines[j], key)
  {
    var i := IndexOf<wstring>(order, key).value;
    assert Defines(lines[i], key);
  }
}
