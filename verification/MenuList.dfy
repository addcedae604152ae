/**
  `fetchMenuItems`: the menu built from the reply lines, with its separators normalised, and
  what remains of it when the cache erases the separators.
 */
module MenuList {
  import opened Splitting
  import opened Utf
  import opened Grammar
  import opened PrintedMenus

  /** What a reply line contributes. */
  datatype Token = Item(item: MenuItem) | Separator | Noise

  function Classify(line: wstring): (t: Token)
    ensures t.Item? ==> !t.item.separator
  {
    if MENU_ITEM_PREFIX <= line then
      var item := ParseMenuItem(line);
      if item.Some? then Item(item.value) else Noise
    else if MENU_SEPARATOR_PREFIX <= line then Separator
    else Noise
  }

  predicate NoSeparatorItems(ts: seq<Token>) {
    forall i :: 0 <= i < |ts| && ts[i].Item? ==> !ts[i].item.separator
  }

  function Tokens(lines: seq<wstring>): (ts: seq<Token>)
    ensures |ts| == |lines| && forall i :: 0 <= i < |lines| ==> ts[i] == Classify(lines[i])
    ensures NoSeparatorItems(ts)
  {
    seq(|lines|, i requires 0 <= i < |lines| => Classify(lines[i]))
  }

  // ------------------------------------------- the reference: a layout

  /** The lines that carry an item, in order. */
  function Positions(ts: seq<Token>): (pos: seq<nat>)
    ensures AreItems(ts, pos)
  {
    if ts == [] then []
    else
      var front, pos := Front(ts), Positions(Front(ts));
      ItemsStep(front, Last(ts), pos);
      assert front + [Last(ts)] == ts;
      if Last(ts).Item? then pos + [|front|] else pos
  }

  predicate AreItems(ts: seq<Token>, pos: seq<nat>) {
    forall r :: 0 <= r < |pos| ==> pos[r] < |ts| && ts[pos[r]].Item?
  }

  lemma ItemsStep(ts: seq<Token>, t: Token, pos: seq<nat>)
    requires AreItems(ts, pos)
    ensures AreItems(ts + [t], pos)
    ensures t.Item? ==> AreItems(ts + [t], pos + [|ts|])
  {
  }

  /** The positions are the item lines, each once, in order. */
  lemma PositionsExactly(ts: seq<Token>)
    ensures forall i: nat :: i in Positions(ts) <==> i < |ts| && ts[i].Item?
    ensures Increasing(Positions(ts))
  {
    forall i: nat
      ensures i in Positions(ts) <==> i < |ts| && ts[i].Item?
    {
      PositionsMember(ts, i);
    }
    PositionsSorted(ts);
  }

  lemma {:induction false} PositionsMember(ts: seq<Token>, i: nat)
    ensures i in Positions(ts) <==> i < |ts| && ts[i].Item?
  {
    if ts != [] {
      PositionsMember(Front(ts), i);
      if i == |ts| - 1 {
        assert Last(ts) == ts[i];
      }
    }
  }

  predicate Increasing(pos: seq<nat>) {
    forall r, q :: 0 <= r < q < |pos| ==> pos[r] < pos[q]
  }

  lemma {:induction false} PositionsSorted(ts: seq<Token>)
    ensures Increasing(Positions(ts))
  {
    if ts != [] {
      var front, pos := Front(ts), Positions(Front(ts));
      PositionsSorted(front);
      assert AreItems(front, pos);
      assert Increasing(pos + [|front|]);
    }
  }

  ghost predicate SeparatorBetween(ts: seq<Token>, i: int, j: int) {
    exists k :: 0 <= i < k < j && j <= |ts| && ts[k].Separator?
  }

  /**
    The items on the first `n` of the given lines, with one separator between two neighbours
    exactly when a separator line lies between their lines.
   */
  ghost function Layout(ts: seq<Token>, pos: seq<nat>, n: nat): seq<MenuItem>
    requires n <= |pos| && AreItems(ts, pos)
  {
    if n == 0 then []
    else
      Layout(ts, pos, n - 1)
      + (if n > 1 && SeparatorBetween(ts, pos[n - 2], pos[n - 1]) then [SEPARATOR_ITEM] else [])
      + [ts[pos[n - 1]].item]
  }

  ghost function Reference(lines: seq<wstring>): seq<MenuItem> {
    var ts := Tokens(lines);
    Layout(ts, Positions(ts), |Positions(ts)|)
  }

  // --------------------------------------------------- the loop's states

  /** The list after the lines: a separator seen since the last item is still at the end. */
  function Accumulated(lines: seq<wstring>): (items: seq<MenuItem>) {
    if lines == [] then [] else Added(Accumulated(Front(lines)), Classify(Last(lines)))
  }

  /** What one line does to the list. */
  function Added(items: seq<MenuItem>, t: Token): seq<MenuItem> {
    match t
    case Item(item) => items + [item]
    case Separator => if items != [] && !Last(items).separator then items + [SEPARATOR_ITEM] else items
    case Noise => items
  }

  /** What `fetchMenuItems` returns for the lines of a reply. */
  function Normalised(lines: seq<wstring>): seq<MenuItem> {
    var items := Accumulated(lines);
    if items != [] && Last(items).separator then Front(items) else items
  }

  /** The loop over the lines and the final pop. */
  method CollectMenuItems(lines: seq<wstring>) returns (items: seq<MenuItem>)
    ensures items == Normalised(lines)
    ensures items == Reference(lines)
    ensures forall printed :: ArePrintable(printed) && Texts(printed) == lines ==> items == Menu(printed)
  {
    items := [];
    for i := 0 to |lines|
      invariant items == Accumulated(lines[..i])
    {
      assert Front(lines[..i + 1]) == lines[..i];
      var line := lines[i];
      if MENU_ITEM_PREFIX <= line {
        var item := ParseMenuItem(line);
        if item.Some? {
          items := items + [item.value];
        }
      } else if MENU_SEPARATOR_PREFIX <= line {
        if items != [] && !items[|items| - 1].separator {
          items := items + [SEPARATOR_ITEM];
        }
      }
    }
    assert lines[..|lines|] == lines;
    if items != [] && items[|items| - 1].separator {
      items := items[..|items| - 1];
    }
    NormalisedIsReference(lines);
    forall printed | ArePrintable(printed) && Texts(printed) == lines
      ensures items == Menu(printed)
    {
      NormalisedIsMenu(printed);
    }
  }

  // ------------------------------------------------- the loop's invariant

  /** Whether a separator line follows the last item line. */
  ghost predicate Pending(ts: seq<Token>, pos: seq<nat>) {
    pos != [] && SeparatorBetween(ts, Last(pos), |ts|)
  }

  lemma {:induction false} LayoutIgnoresLaterLines(ts: seq<Token>, t: Token, pos: seq<nat>, more: seq<nat>, n: nat)
    requires n <= |pos| && pos <= more
    requires AreItems(ts + [t], more) && AreItems(ts, pos)
    ensures Layout(ts + [t], more, n) == Layout(ts, pos, n)
  {
    if n > 0 {
      LayoutIgnoresLaterLines(ts, t, pos, more, n - 1);
      if n > 1 {
        SeparatorBetweenKept(ts, t, pos[n - 2], pos[n - 1]);
      }
    }
  }

  lemma SeparatorBetweenKept(ts: seq<Token>, t: Token, i: int, j: int)
    requires 0 <= i && j <= |ts|
    ensures SeparatorBetween(ts + [t], i, j) == SeparatorBetween(ts, i, j)
  {
    assert forall k :: 0 <= k < |ts| ==> (ts + [t])[k] == ts[k];
  }

  lemma PendingStep(ts: seq<Token>, t: Token, pos: seq<nat>)
    requires pos != [] && Last(pos) < |ts|
    ensures Pending(ts + [t], pos) == (Pending(ts, pos) || t.Separator?)
  {
    var us := ts + [t];
    assert forall k :: 0 <= k < |ts| ==> us[k] == ts[k];
    assert us[|ts|] == t;
  }

  /** The layout of all item lines, and the separator that still waits for a next item. */
  ghost function Picture(ts: seq<Token>): seq<MenuItem> {
    var pos := Positions(ts);
    Layout(ts, pos, |pos|) + (if Pending(ts, pos) then [SEPARATOR_ITEM] else [])
  }

  lemma PositionsStep(ts: seq<Token>, t: Token)
    ensures Positions(ts + [t]) == if t.Item? then Positions(ts) + [|ts|] else Positions(ts)
  {
    assert Front(ts + [t]) == ts;
  }

  lemma LayoutOfItem(ts: seq<Token>, t: Token)
    requires t.Item?
    ensures var us, more := ts + [t], Positions(ts + [t]);
            Layout(us, more, |more|) == Picture(ts) + [t.item]
  {
    var us, pos := ts + [t], Positions(ts);
    PositionsStep(ts, t);
    var more := Positions(us);
    LayoutIgnoresLaterLines(ts, t, pos, more, |pos|);
    if pos != [] {
      assert more[|pos| - 1] == Last(pos);
      SeparatorBetweenKept(ts, t, Last(pos), |ts|);
    }
  }

  lemma PictureOfItem(ts: seq<Token>, t: Token)
    requires t.Item?
    ensures Picture(ts + [t]) == Picture(ts) + [t.item]
  {
    PositionsStep(ts, t);
    assert !Pending(ts + [t], Positions(ts + [t]));
    LayoutOfItem(ts, t);
  }

  lemma PictureOfOther(ts: seq<Token>, t: Token)
    requires !t.Item?
    requires NoSeparatorItems(ts)
    ensures Picture(ts + [t]) == Added(Picture(ts), t)
  {
    var pos := Positions(ts);
    PositionsStep(ts, t);
    LayoutIgnoresLaterLines(ts, t, pos, pos, |pos|);
    if pos != [] {
      PendingStep(ts, t, pos);
      LayoutEndsWithItem(ts, pos);
    }
  }

  lemma TokensStep(front: seq<wstring>, line: wstring)
    ensures Tokens(front + [line]) == Tokens(front) + [Classify(line)]
  {
  }

  lemma LayoutEndsWithItem(ts: seq<Token>, pos: seq<nat>)
    requires pos != [] && AreItems(ts, pos)
    ensures var l := Layout(ts, pos, |pos|); l != [] && Last(l) == ts[Last(pos)].item
  {
  }

  lemma {:induction false} AccumulatedIsPicture(lines: seq<wstring>)
    ensures Accumulated(lines) == Picture(Tokens(lines))
  {
    if lines != [] {
      var front, t := Front(lines), Classify(Last(lines));
      AccumulatedIsPicture(front);
      assert front + [Last(lines)] == lines;
      TokensStep(front, Last(lines));
      if t.Item? {
        PictureOfItem(Tokens(front), t);
      } else {
        PictureOfOther(Tokens(front), t);
      }
    }
  }

  /**
    Separator normalisation, exactly: the parsable items in order, one separator between two
    of them if and only if a separator line lies between their lines.
   */
  lemma NormalisedIsReference(lines: seq<wstring>)
    ensures Normalised(lines) == Reference(lines)
  {
    AccumulatedIsPicture(lines);
    var ts := Tokens(lines);
    var pos := Positions(ts);
    if pos != [] {
      LayoutEndsWithItem(ts, pos);
    }
  }

  // --------------------------------------------------- the printed lines

  lemma ItemIsRead(command: wstring, flags: wstring, title: wstring)
    requires 0x3A !in command && 0x3A !in flags
    ensures Classify(Text(ItemLine(command, flags, title))) == Item(ItemOf(ItemLine(command, flags, title)))
  {
    ParsePrinted(command, flags, title);
    assert Text(ItemLine(command, flags, title)) == PrintMenuItem(command, flags, title);
  }

  lemma SeparatorIsRead(rest: wstring)
    ensures Classify(Text(SeparatorLine(rest))) == Separator
  {
    var text := Text(SeparatorLine(rest));
    assert text[5] == MENU_SEPARATOR_PREFIX[5] != MENU_ITEM_PREFIX[5];
  }

  lemma OtherIsNoise(text: wstring)
    requires IsPrintable(OtherLine(text))
    ensures Classify(text) == Noise
  {
    if MENU_ITEM_PREFIX <= text {
      var body := text[10..];
      assert text == MENU_ITEM_PREFIX + body;
      ParseBySplitting(body);
    }
  }

  lemma LineIsRead(line: PrintedLine)
    requires IsPrintable(line)
    ensures Classify(Text(line)) ==
            if line.ItemLine? then Item(ItemOf(line)) else if line.SeparatorLine? then Separator else Noise
  {
    match line
    case ItemLine(command, flags, title) => ItemIsRead(command, flags, title);
    case SeparatorLine(rest) => SeparatorIsRead(rest);
    case OtherLine(text) => OtherIsNoise(text);
  }

  lemma PrintableParts(lines: seq<PrintedLine>)
    requires lines != [] && ArePrintable(lines)
    ensures ArePrintable(Front(lines)) && IsPrintable(Last(lines))
  {
    InFrontOrLast<PrintedLine>(lines);
  }

  lemma TextsStep(front: seq<PrintedLine>, line: PrintedLine)
    ensures Texts(front + [line]) == Texts(front) + [Text(line)]
  {
  }

  lemma {:induction false} MenuHasItemsOnly(lines: seq<PrintedLine>)
    ensures var menu := Menu(lines); menu != [] ==> !Last(menu).separator
  {
    if lines != [] {
      MenuHasItemsOnly(Front(lines));
    }
  }

  /** The menu so far, and a separator that waits for a next item. */
  function MenuSoFar(lines: seq<PrintedLine>): seq<MenuItem> {
    var menu := Menu(lines);
    menu + if menu != [] && SeparatorIsLast(lines) then [SEPARATOR_ITEM] else []
  }

  lemma MenuSoFarStep(front: seq<PrintedLine>, line: PrintedLine)
    requires IsPrintable(line)
    ensures MenuSoFar(front + [line]) == Added(MenuSoFar(front), Classify(Text(line)))
  {
    assert Front(front + [line]) == front;
    MenuHasItemsOnly(front);
    LineIsRead(line);
  }

  lemma AccumulatedStep(front: seq<wstring>, text: wstring)
    ensures Accumulated(front + [text]) == Added(Accumulated(front), Classify(text))
  {
    assert Front(front + [text]) == front;
  }

  lemma {:induction false} AccumulatedIsMenu(lines: seq<PrintedLine>)
    requires ArePrintable(lines)
    ensures Accumulated(Texts(lines)) == MenuSoFar(lines)
  {
    if lines != [] {
      var front, line := Front(lines), Last(lines);
      PrintableParts(lines);
      AccumulatedIsMenu(front);
      assert front + [line] == lines;
      TextsStep(front, line);
      AccumulatedStep(Texts(front), Text(line));
      MenuSoFarStep(front, line);
    }
  }

  /** So the menu of any printed lines is the one they mean. */
  lemma NormalisedIsMenu(lines: seq<PrintedLine>)
    requires ArePrintable(lines)
    ensures Normalised(Texts(lines)) == Menu(lines)
  {
    AccumulatedIsMenu(lines);
    MenuHasItemsOnly(lines);
  }

  /** And every text is a printed line. */
  lemma EveryLineIsPrinted(text: wstring) returns (line: PrintedLine)
    ensures IsPrintable(line) && Text(line) == text
  {
    if MENU_ITEM_PREFIX <= text && ParseMenuItem(text).Some? {
      var flags := ParsedIsPrinted(text);
      var item := ParseMenuItem(text).value;
      line := ItemLine(item.command, flags, item.title);
    } else if MENU_SEPARATOR_PREFIX <= text {
      line := SeparatorLine(text[|MENU_SEPARATOR_PREFIX|..]);
    } else {
      line := OtherLine(text);
      if MENU_ITEM_PREFIX <= text {
        var body := text[10..];
        assert text == MENU_ITEM_PREFIX + body;
        ParseBySplitting(body);
      }
    }
  }

  lemma {:induction false} EveryReplyIsPrinted(texts: seq<wstring>) returns (lines: seq<PrintedLine>)
    ensures ArePrintable(lines) && Texts(lines) == texts
  {
    if texts == [] {
      lines := [];
    } else {
      var front := EveryReplyIsPrinted(Front(texts));
      var line := EveryLineIsPrinted(Last(texts));
      lines := front + [line];
      TextsStep(front, line);
      assert Front(texts) + [Last(texts)] == texts;
    }
  }

  // ------------------------------------------ consequences for the menu

  ghost predicate WellSeparated(items: seq<MenuItem>) {
    && (items != [] ==> !items[0].separator && !Last(items).separator)
    && forall i :: 0 <= i < |items| - 1 ==> !(items[i].separator && items[i + 1].separator)
  }

  lemma WellSeparatedAppend(items: seq<MenuItem>, item: MenuItem)
    requires items != [] && WellSeparated(items) && !item.separator
    ensures WellSeparated(items + [SEPARATOR_ITEM] + [item]) && WellSeparated(items + [] + [item])
  {
  }

  lemma {:induction false} LayoutWellSeparated(ts: seq<Token>, pos: seq<nat>, n: nat)
    requires n <= |pos| && AreItems(ts, pos) && NoSeparatorItems(ts)
    ensures WellSeparated(Layout(ts, pos, n))
    ensures n > 0 ==> Layout(ts, pos, n) != []
  {
    if n > 0 {
      LayoutWellSeparated(ts, pos, n - 1);
      var item := ts[pos[n - 1]].item;
      if n > 1 {
        WellSeparatedAppend(Layout(ts, pos, n - 1), item);
      } else {
        assert Layout(ts, pos, n) == [item];
      }
    }
  }

  /** No leading, trailing or adjacent separators. */
  lemma MenuIsWellSeparated(lines: seq<wstring>)
    ensures WellSeparated(Normalised(lines))
  {
    NormalisedIsReference(lines);
    var ts := Tokens(lines);
    LayoutWellSeparated(ts, Positions(ts), |Positions(ts)|);
  }

  /** `std::erase_if` on the separators. */
  function EraseSeparators(items: seq<MenuItem>): (kept: seq<MenuItem>)
    ensures forall i :: 0 <= i < |kept| ==> !kept[i].separator
  {
    if items == [] then []
    else EraseSeparators(Front(items)) + (if Last(items).separator then [] else [Last(items)])
  }

  /** The parsable MENU_ITEM lines, in order, and nothing else. */
  function ItemsOf(lines: seq<wstring>): seq<MenuItem> {
    if lines == [] then []
    else
      var t := Classify(Last(lines));
      ItemsOf(Front(lines)) + (if t.Item? then [t.item] else [])
  }

  lemma {:induction false} EraseAccumulated(lines: seq<wstring>)
    ensures EraseSeparators(Accumulated(lines)) == ItemsOf(lines)
  {
    if lines != [] {
      var items, t := Accumulated(Front(lines)), Classify(Last(lines));
      EraseAccumulated(Front(lines));
      if t.Item? {
        assert Front(items + [t.item]) == items;
      } else {
        assert Front(items + [SEPARATOR_ITEM]) == items;
      }
    }
  }

  /** Fusion: normalising and then erasing the separators is just reading the item lines. */
  lemma EraseIsFusion(lines: seq<wstring>)
    ensures EraseSeparators(Normalised(lines)) == ItemsOf(lines)
  {
    EraseAccumulated(lines);
  }

  lemma ItemsOfStep(front: seq<wstring>, text: wstring)
    ensures var t := Classify(text); ItemsOf(front + [text]) == ItemsOf(front) + (if t.Item? then [t.item] else [])
  {
    assert Front(front + [text]) == front;
  }

  /** Of printed lines that is the printed items. */
  lemma {:induction false} ItemsOfPrinted(lines: seq<PrintedLine>)
    requires ArePrintable(lines)
    ensures ItemsOf(Texts(lines)) == Items(lines)
  {
    if lines != [] {
      var front, line := Front(lines), Last(lines);
      PrintableParts(lines);
      ItemsOfPrinted(front);
      assert front + [line] == lines;
      TextsStep(front, line);
      ItemsOfStep(Texts(front), Text(line));
      LineIsRead(line);
    }
  }

  lemma {:induction false} ItemsOfConcat(a: seq<wstring>, b: seq<wstring>)
    ensures ItemsOf(a + b) == ItemsOf(a) + ItemsOf(b)
  {
    if b == [] {
      assert a + b == a;
    } else {
      ItemsOfConcat(a, Front(b));
      assert Front(a + b) == a + Front(b) && Last(a + b) == Last(b);
    }
  }

  /** Lines that carry no item can be inserted or deleted anywhere. */
  lemma NoiseIsIrrelevant(a: seq<wstring>, noise: seq<wstring>, b: seq<wstring>)
    requires forall i :: 0 <= i < |noise| ==> !Classify(noise[i]).Item?
    ensures EraseSeparators(Normalised(a + noise + b)) == EraseSeparators(Normalised(a + b))
  {
    EraseIsFusion(a + noise + b);
    EraseIsFusion(a + b);
    ItemsOfConcat(a + noise, b);
    ItemsOfConcat(a, noise);
    ItemsOfConcat(a, b);
    NoItems(noise);
  }

  lemma {:induction false} NoItems(noise: seq<wstring>)
    requires forall i :: 0 <= i < |noise| ==> !Classify(noise[i]).Item?
    ensures ItemsOf(noise) == []
  {
    if noise != [] {
      NoItems(Front(noise));
    }
  }
}
