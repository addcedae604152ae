/**
  The commands Explorer sees: 16 sub command slots and the root, all of which ask the cache
  for the selection they are given.
 */
module Explorer {
  import opened Options
  import opened Splitting
  import opened Utf
  import opened Grammar
  import opened PrintedMenus
  import opened MenuList
  import opened Wire
  import opened SocketClients
  import opened Requests
  import opened MenuCaches
  import opened Enumerators

  const SUB_COMMANDS := 16

  datatype CommandState = Hidden | Enabled | Disabled

  /** A shell item array: absent, or items some of which have no file system path. */
  type ShellItems = Option<seq<Option<wstring>>>

  ghost predicate AllInFileSystem(items: ShellItems) {
    items.Some? && forall i :: 0 <= i < |items.value| ==> items.value[i].Some?
  }

  /** `filePaths`: the paths of the selection, or none if any item has none. */
  method FilePaths(items: ShellItems) returns (out: Selection)
    ensures if AllInFileSystem(items)
            then |out| == |items.value| && forall i :: 0 <= i < |out| ==> items.value[i] == Some(out[i])
            else out == []
  {
    if items.None? {
      return [];
    }
    out := [];
    for i := 0 to |items.value|
      invariant |out| == i && forall k :: 0 <= k < i ==> items.value[k] == Some(out[k])
    {
      if items.value[i].None? {
        return [];
      }
      out := out + [items.value[i].value];
    }
  }

  // ------------------------------------------------------- specifications

  /** The cache, the world and the answer after asking the cache. */
  function Ask(c: Cache, w: World, files: Selection): (Cache, World, Menu) {
    var r := Lookup(c, files, FetchedMenu(w, files).1);
    (r.0, if Hit(c, files) then w else FetchedMenu(w, files).0, r.1)
  }

  function ItemAt(menu: Menu, index: nat): Option<MenuItem> {
    if index < |menu| then Some(menu[index]) else None
  }

  /** Who is asked for its state. */
  datatype Probe = Root | Slot(index: nat)

  function StateOf(menu: Menu, probe: Probe): CommandState {
    match probe
    case Root => if menu == [] then Hidden else Enabled
    case Slot(index) =>
      var item := ItemAt(menu, index);
      if item.None? then Hidden else if item.value.enabled then Enabled else Disabled
  }

  /** `Invoke` of a slot: the command of its item is sent, and nothing without files or an item. */
  function Invoked(c: Cache, w: World, files: Selection, index: nat): (Cache, World, Hresult) {
    var r := Ask(c, w, files);
    var item := ItemAt(r.2, index);
    if files == [] || item.None? then (r.0, r.1, E_FAIL)
    else
      var sent := SentCommand(r.1, item.value.command, files);
      (r.0, sent.0, if sent.1 then S_OK else E_FAIL)
  }

  /** `copyString` */
  function CopyString(s: wstring): (Hresult, Option<wstring>) {
    if s == [] then (E_FAIL, None) else (S_OK, Some(s))
  }

  // -------------------------------------------------------------- classes

  class SubCommand {
    const cache: MenuCache
    const index: nat

    constructor (cache: MenuCache, index: nat)
      ensures this.cache == cache && this.index == index
    {
      this.cache := cache;
      this.index := index;
    }

    method ItemFor(files: Selection) returns (item: Option<MenuItem>)
      modifies cache, cache.kernel
      ensures var r := Ask(old(cache.View()), old(cache.kernel.View()), files);
              cache.View() == r.0 && cache.kernel.View() == r.1 && item == ItemAt(r.2, index)
    {
      var menu := cache.MenuItems(files);
      if index >= |menu| {
        return None;
      }
      item := Some(menu[index]);
    }

    method GetTitle(files: Selection) returns (hr: Hresult, name: Option<wstring>)
      modifies cache, cache.kernel
      ensures var r := Ask(old(cache.View()), old(cache.kernel.View()), files);
              && cache.View() == r.0 && cache.kernel.View() == r.1
              && (hr, name) == if index < |r.2| && r.2[index].title != [] then (S_OK, Some(r.2[index].title))
                               else (E_FAIL, None)
    {
      var item := ItemFor(files);
      if item.None? {
        return E_FAIL, None;
      }
      var copied := CopyString(item.value.title);
      hr, name := copied.0, copied.1;
    }

    method GetState(files: Selection) returns (state: CommandState)
      modifies cache, cache.kernel
      ensures var r := Ask(old(cache.View()), old(cache.kernel.View()), files);
              cache.View() == r.0 && cache.kernel.View() == r.1 && state == StateOf(r.2, Slot(index))
    {
      var item := ItemFor(files);
      state := if item.None? then Hidden else if item.value.enabled then Enabled else Disabled;
    }

    method Invoke(files: Selection) returns (hr: Hresult)
      modifies cache, cache.kernel
      ensures (cache.View(), cache.kernel.View(), hr)
           == Invoked(old(cache.View()), old(cache.kernel.View()), files, index)
    {
      var item := ItemFor(files);
      if files == [] || item.None? {
        return E_FAIL;
      }
      var sent := SocketClient.SendCommand(cache.kernel, item.value.command, files);
      hr := if sent then S_OK else E_FAIL;
    }
  }

  class ExplorerCommand {
    const cache: MenuCache

    constructor (kernel: Kernel)
      ensures fresh(cache) && cache.kernel == kernel && cache.View() == EMPTY_CACHE
    {
      cache := new MenuCache(kernel);
    }

    method GetState(files: Selection) returns (state: CommandState)
      modifies cache, cache.kernel
      ensures var r := Ask(old(cache.View()), old(cache.kernel.View()), files);
              cache.View() == r.0 && cache.kernel.View() == r.1 && state == StateOf(r.2, Root)
    {
      var menu := cache.MenuItems(files);
      state := if menu == [] then Hidden else Enabled;
    }

    /** The client's string for the key; a failure if it has none or an empty one. */
    method CopyClientString(key: wstring) returns (hr: Hresult, name: Option<wstring>)
      modifies cache, cache.kernel
      ensures cache.View() == old(cache.View())
      ensures var before, fetch := old(cache.strings), FetchedStrings(old(cache.kernel.View()));
              var strings := if before == map[] then fetch.1 else before;
              && cache.strings == strings
              && cache.kernel.View() == (if before == map[] then fetch.0 else old(cache.kernel.View()))
              && (hr, name) == if key in strings && strings[key] != [] then (S_OK, Some(strings[key]))
                               else (E_FAIL, None)
    {
      var value := cache.String(key);
      var copied := CopyString(value);
      hr, name := copied.0, copied.1;
    }

    method GetTitle() returns (hr: Hresult, name: Option<wstring>)
      modifies cache, cache.kernel
      ensures cache.View() == old(cache.View())
      ensures var key, strings := Wide("CONTEXT_MENU_TITLE"), cache.strings;
              (hr, name) == if key in strings && strings[key] != [] then (S_OK, Some(strings[key])) else (E_FAIL, None)
      ensures cache.strings == if old(cache.strings) == map[] then FetchedStrings(old(cache.kernel.View())).1
                               else old(cache.strings)
    {
      hr, name := CopyClientString(Wide("CONTEXT_MENU_TITLE"));
    }

    method GetIcon() returns (hr: Hresult, name: Option<wstring>)
      modifies cache, cache.kernel
      ensures cache.View() == old(cache.View())
      ensures var key, strings := Wide("CONTEXT_MENU_ICON"), cache.strings;
              (hr, name) == if key in strings && strings[key] != [] then (S_OK, Some(strings[key])) else (E_FAIL, None)
      ensures cache.strings == if old(cache.strings) == map[] then FetchedStrings(old(cache.kernel.View())).1
                               else old(cache.strings)
    {
      hr, name := CopyClientString(Wide("CONTEXT_MENU_ICON"));
    }

    /** `memory` is the number of objects that can still be allocated. */
    method EnumSubCommands(memory: nat) returns (hr: Hresult, commands: EnumCommands?<SubCommand>)
      ensures hr == if memory > 16 then S_OK else E_OUTOFMEMORY
      ensures commands == null <==> hr != S_OK
      ensures commands != null ==>
                && fresh(commands) && commands.current == 0 && |commands.commands| == 16
                && forall i :: 0 <= i < 16 ==>
                     commands.commands[i].index == i && commands.commands[i].cache == cache
    {
      commands := null;
      var slots: seq<SubCommand> := [];
      for i := 0 to SUB_COMMANDS
        invariant i <= memory && |slots| == i
        invariant forall k :: 0 <= k < i ==> slots[k].index == k && slots[k].cache == cache
      {
        if memory == i {
          return E_OUTOFMEMORY, null;
        }
        var command := new SubCommand(cache, i);
        slots := slots + [command];
      }
      if memory == SUB_COMMANDS {
        return E_OUTOFMEMORY, null;
      }
      commands := new EnumCommands(slots);
      hr := S_OK;
    }
  }

  // ------------------------------------------------------------- theorems

  /**
    With n items exactly the slots 0 to min(16, n) - 1 are visible, enabled as their items
    are, and the root is visible if any of them is.
   */
  lemma VisibleSlots(menu: Menu)
    ensures forall i :: 0 <= i < Min(16, |menu|) ==>
              StateOf(menu, Slot(i)) == if menu[i].enabled then Enabled else Disabled
    ensures forall i :: 0 <= i < 16 ==> (StateOf(menu, Slot(i)) != Hidden <==> i < Min(16, |menu|))
    ensures StateOf(menu, Root) ==
            if forall i :: 0 <= i < 16 ==> StateOf(menu, Slot(i)) == Hidden then Hidden else Enabled
  {
    if menu != [] {
      assert StateOf(menu, Slot(0)) != Hidden;
    }
  }

  /**
    Slot consistency: in any sequence of state queries for one selection, whatever the client
    would answer in between, root and slots all see the same menu, and once the first query
    has been answered no slot or title triggers another request.
   */
  lemma SlotsAgree(c: Cache, queries: seq<Query>, probes: seq<Probe>, i: nat)
    requires |queries| == |probes| && i < |queries|
    requires forall k :: 0 <= k < |queries| ==> queries[k].files == queries[0].files
    ensures StateOf(AnswerTo(c, queries, i), probes[i]) == StateOf(AnswerTo(c, queries, 0), probes[i])
    ensures i > 0 ==> !Misses(c, queries, i)
  {
    SameSelectionSameAnswer(c, queries, i);
    if i > 0 {
      SameSelectionSameAnswer(c, queries, i - 1);
      AfterPrefix(c, queries, i - 1);
    }
  }

  lemma {:induction false} KeptWasThere(items: Menu, k: nat)
    requires k < |EraseSeparators(items)|
    ensures exists i :: 0 <= i < |items| && items[i] == EraseSeparators(items)[k]
  {
    var front := EraseSeparators(Front(items));
    if k < |front| {
      KeptWasThere(Front(items), k);
      var i :| 0 <= i < |items| - 1 && Front(items)[i] == front[k];
      assert items[i] == front[k];
    } else {
      assert Last(items) == EraseSeparators(items)[k];
    }
  }

  /**
    The slot the user sees is the one that is invoked. Once the menu was shown for a selection,
    from the cache or by a request, invoking a slot asks for no menu again: a hidden slot sends
    nothing, a visible one sends the command of the item that was shown there.
   */
  lemma InvokeSendsShownItem(c: Cache, shown: World, files: Selection, later: World, index: nat)
    ensures var cache, menu := Ask(c, shown, files).0, Ask(c, shown, files).2;
            var r := Invoked(cache, later, files, index);
            && r.0 == cache
            && if files == [] || StateOf(menu, Slot(index)) == Hidden then r.1 == later && r.2 == E_FAIL
               else var sent := SentCommand(later, menu[index].command, files);
                    r.1 == sent.0 && r.2 == (if sent.1 then S_OK else E_FAIL)
  {
  }

  /** Every query of the run would be answered by some state of the client. */
  ghost predicate AnsweredBy(queries: seq<Query>, worlds: seq<World>) {
    && |queries| == |worlds|
    && forall k :: 0 <= k < |queries| ==> queries[k].fetched == FetchedMenu(worlds[k], queries[k].files).1
  }

  /** Every item shown for a selection stands in a menu that a request for this selection returned. */
  lemma ShownItemWasFetched(queries: seq<Query>, worlds: seq<World>, shown: World, files: Selection, index: nat)
    returns (w: World, k: nat)
    requires AnsweredBy(queries, worlds) && files != []
    requires index < |Ask(After(EMPTY_CACHE, queries), shown, files).2|
    ensures var fetched := FetchedMenu(w, files).1;
            k < |fetched| && fetched[k] == Ask(After(EMPTY_CACHE, queries), shown, files).2[index]
    ensures !FetchedMenu(w, files).1[k].separator
  {
    var c := After(EMPTY_CACHE, queries);
    var menu := Ask(c, shown, files).2;
    w := shown;
    if Hit(c, files) {
      var n := |queries|;
      CacheIsLastRequest(queries, n);
      assert queries[..n] == queries;
      w := worlds[LastMiss(queries, n)];
    }
    assert menu == EraseSeparators(FetchedMenu(w, files).1);
    KeptWasThere(FetchedMenu(w, files).1, index);
    k :| 0 <= k < |FetchedMenu(w, files).1| && FetchedMenu(w, files).1[k] == menu[index];
  }

  /** Line `i` of the peer's reply is the print of the item, with these flags. */
  ghost predicate IsPrintedAt(w: World, item: MenuItem, i: nat, flags: wstring) {
    var reply, line := PeerReply(w, Wide("GET_MENU_ITEMS:END")), ItemLine(item.command, flags, item.title);
    && reply.Some? && i < |reply.value| && reply.value[i] == Text(line)
    && 0x3A !in item.command && 0x3A !in flags
    && item == MenuItem(item.command, item.title, 0x64 !in flags, false)
  }

  /** Every item that is no separator stands on a line the peer printed for this selection. */
  lemma ItemWasPrinted(w: World, files: seq<wstring>, k: nat) returns (i: nat, flags: wstring)
    requires k < |FetchedMenu(w, files).1| && !FetchedMenu(w, files).1[k].separator
    ensures IsPrintedAt(w, FetchedMenu(w, files).1[k], i, flags)
  {
    FetchedItem(w, files, k);
    var lines := PeerReply(w, MENU_END).value;
    ItemHasLine(lines, k);
    var item := FetchedMenu(w, files).1[k];
    i :| 0 <= i < |lines| && Classify(lines[i]) == Item(item);
    flags := ParsedIsPrinted(lines[i]);
    assert Text(ItemLine(item.command, flags, item.title)) == PrintMenuItem(item.command, flags, item.title);
  }

  /**
    Over every run of the cache, what a slot shows for a selection is what the client printed for
    exactly this selection: title, command and flags are those of a MENU_ITEM line of the reply.
   */
  lemma ShownItemWasPrinted(queries: seq<Query>, worlds: seq<World>, shown: World, files: Selection, index: nat)
    returns (w: World, k: nat, i: nat, flags: wstring)
    requires AnsweredBy(queries, worlds) && files != []
    requires index < |Ask(After(EMPTY_CACHE, queries), shown, files).2|
    ensures var item := Ask(After(EMPTY_CACHE, queries), shown, files).2[index];
            k < |FetchedMenu(w, files).1| && FetchedMenu(w, files).1[k] == item && IsPrintedAt(w, item, i, flags)
  {
    w, k := ShownItemWasFetched(queries, worlds, shown, files, index);
    i, flags := ItemWasPrinted(w, files, k);
  }

  /**
    Over every run of the cache: if invoking a visible slot succeeds, the client reads one
    message with exactly the command of the item shown there and exactly the selected files, if
    and only if the selection survives joining and encoding.
   */
  lemma ShownItemArrives(
    queries: seq<Query>, worlds: seq<World>, shown: World, files: Selection, later: World, index: nat)
    requires AnsweredBy(queries, worlds)
    ensures var asked := Ask(After(EMPTY_CACHE, queries), shown, files);
            var r := Invoked(asked.0, later, files, index);
            r.2 == S_OK ==>
              && index < |asked.2|
              && (Received(Last(r.1.wires)) == [Message(asked.2[index].command, files)] <==> SelectionSurvives(files))
  {
    var c := After(EMPTY_CACHE, queries);
    var asked := Ask(c, shown, files);
    InvokeSendsShownItem(c, shown, files, later, index);
    if Invoked(asked.0, later, files, index).2 == S_OK {
      var w, k := ShownItemWasFetched(queries, worlds, shown, files, index);
      InvokedItemArrives(w, later, files, k, files);
    }
  }
}
