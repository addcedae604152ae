/**
  What the client's menu lines mean, independently of how the extension reads them: the lines as
  they are printed, and the menu a user should see for them.
 */
module PrintedMenus {
  import opened Splitting
  import opened Utf
  import opened Grammar

  datatype PrintedLine =
    | ItemLine(command: wstring, flags: wstring, title: wstring)
    | SeparatorLine(rest: wstring)
    | OtherLine(text: wstring)

  function Text(line: PrintedLine): wstring {
    match line
    case ItemLine(command, flags, title) => Wide("MENU_ITEM:") + (command + [0x3A] + (flags + [0x3A] + title))
    case SeparatorLine(rest) => Wide("MENU_SEPARATOR:") + rest
    case OtherLine(text) => text
  }

  /** Command and flags hold no colon; other lines are no separators and have fewer than two colons for an item. */
  predicate IsPrintable(line: PrintedLine) {
    match line
    case ItemLine(command, flags, _) => 0x3A !in command && 0x3A !in flags
    case SeparatorLine(_) => true
    case OtherLine(text) =>
      && !(Wide("MENU_SEPARATOR:") <= text)
      && (Wide("MENU_ITEM:") <= text ==> |Split<wchar>(text[10..], 0x3A)| < 3)
  }

  ghost predicate ArePrintable(lines: seq<PrintedLine>) {
    forall line :: line in lines ==> IsPrintable(line)
  }

  function Texts(lines: seq<PrintedLine>): (texts: seq<wstring>)
    ensures |texts| == |lines| && forall i :: 0 <= i < |lines| ==> texts[i] == Text(lines[i])
  {
    seq(|lines|, i requires 0 <= i < |lines| => Text(lines[i]))
  }

  /** A d in the flags disables an item. */
  function ItemOf(line: PrintedLine): MenuItem
    requires line.ItemLine?
  {
    MenuItem(line.command, line.title, 0x64 !in line.flags, false)
  }

  /** A separator line stands behind the last item. */
  predicate SeparatorIsLast(lines: seq<PrintedLine>) {
    lines != [] && !Last(lines).ItemLine? && (Last(lines).SeparatorLine? || SeparatorIsLast(Front(lines)))
  }

  /** The printed items in order, one separator between two of them if and only if a separator line is. */
  function Menu(lines: seq<PrintedLine>): seq<MenuItem> {
    if lines == [] then []
    else
      var menu := Menu(Front(lines));
      if !Last(lines).ItemLine? then menu
      else
        var between := if menu != [] && SeparatorIsLast(Front(lines)) then [MenuItem([], [], true, true)] else [];
        menu + between + [ItemOf(Last(lines))]
  }

  /** The printed items alone. */
  function Items(lines: seq<PrintedLine>): seq<MenuItem> {
    if lines == [] then []
    else Items(Front(lines)) + (if Last(lines).ItemLine? then [ItemOf(Last(lines))] else [])
  }
}
