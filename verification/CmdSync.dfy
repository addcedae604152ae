/**
  The command-line client: the file of unsynced folders, the fixup of the selective-sync list
  in the journal, and the handler that restarts a sync when another one is needed.
 */
module CmdSync {
  import opened Options
  import opened Splitting

  // ------------------------------------------------- the file of unsynced folders

  /** What `\S` does not match. */
  predicate IsSpace(c: char) {
    c == ' ' || '\t' <= c <= '\r'
  }

  /** Neither blank nor a comment. */
  predicate NamesFolder(line: string) {
    (exists i :: 0 <= i < |line| && !IsSpace(line[i])) && line[0] != '#'
  }

  function Selected(lines: seq<string>): (kept: seq<string>)
    ensures forall line :: line in kept <==> line in lines && NamesFolder(line)
  {
    if lines == [] then []
    else Selected(Front(lines)) + (if NamesFolder(Last(lines)) then [Last(lines)] else [])
  }

  function WithSlash(line: string): (folder: string)
    ensures folder != "" && Last(folder) == '/'
  {
    if line != "" && Last(line) == '/' then line else line + "/"
  }

  /** The folders a text lists: its lines that name one, each ending with a slash. */
  function Folders(text: string): set<string> {
    set line | line in Split<char>(text, '\n') && NamesFolder(line) :: WithSlash(line)
  }

  /** The list of lines is filtered and then edited in place. */
  method ReadFolders(text: string) returns (folders: set<string>)
    ensures folders == Folders(text)
  {
    var list := Selected(Split<char>(text, '\n'));
    ghost var lines := list;
    for i := 0 to |list|
      invariant |list| == |lines|
      invariant forall k :: 0 <= k < |list| ==> list[k] == if k < i then WithSlash(lines[k]) else lines[k]
    {
      if list[i] == "" || Last(list[i]) != '/' {
        list := list[i := list[i] + "/"];
      }
    }
    folders := set folder | folder in list;
    SameFolders(lines, list);
  }

  lemma SameFolders(lines: seq<string>, list: seq<string>)
    requires |list| == |lines| && forall k :: 0 <= k < |list| ==> list[k] == WithSlash(lines[k])
    ensures (set folder | folder in list) == set line | line in lines :: WithSlash(line)
  {
    forall line | line in lines
      ensures WithSlash(line) in list
    {
      var k :| 0 <= k < |lines| && lines[k] == line;
      assert list[k] in list;
    }
  }

  /** Spaces and the characters U+0009 to U+000D only. */
  predicate IsBlank(line: string) {
    forall c :: c in line ==> c as int == 0x20 || 0x09 <= c as int <= 0x0D
  }

  predicate IsComment(line: string) {
    "#" <= line
  }

  predicate IsFolder(name: string) {
    !IsBlank(name) && !IsComment(name) && '\n' !in name && "" < name && Last(name) == '/'
  }

  lemma NamesFolderExactly(line: string)
    ensures NamesFolder(line) <==> !IsBlank(line) && !IsComment(line)
  {
    if !IsBlank(line) {
      var c :| c in line && !(c as int == 0x20 || 0x09 <= c as int <= 0x0D);
      var i :| 0 <= i < |line| && line[i] == c;
      assert !IsSpace(line[i]);
    }
    if i :| 0 <= i < |line| && !IsSpace(line[i]) {
      assert line[i] in line;
    }
  }

  /**
    Exactly the folders of a text: a line that is no comment and not blank names one, which is the
    line with one closing slash added if it has none.
   */
  lemma FoldersExactly(text: string, folder: string)
    ensures folder in Folders(text) <==>
              exists line :: line in Split<char>(text, '\n') && !IsBlank(line) && !IsComment(line)
                          && folder == if line[|line| - 1] == '/' then line else line + "/"
  {
    forall line
      ensures NamesFolder(line) <==> !IsBlank(line) && !IsComment(line)
    {
      NamesFolderExactly(line);
    }
  }

  lemma SlashMakesFolder(line: string)
    requires NamesFolder(line) && '\n' !in line
    ensures IsFolder(WithSlash(line))
  {
    NamesFolderExactly(line);
    var c :| c in line && !(c as int == 0x20 || 0x09 <= c as int <= 0x0D);
    assert c in WithSlash(line) && WithSlash(line)[0] == line[0];
  }

  /** Whatever the file holds, only folder names are read. */
  lemma OnlyFoldersAreRead(text: string)
    ensures forall folder :: folder in Folders(text) ==> IsFolder(folder)
  {
    JoinSplit<char>(text, '\n');
    forall line | line in Split<char>(text, '\n') && NamesFolder(line)
      ensures IsFolder(WithSlash(line))
    {
      SlashMakesFolder(line);
    }
  }

  /** Folder names written one a line are read back exactly; blank lines and comments do not count. */
  lemma FoldersRoundTrip(lines: seq<string>, names: set<string>)
    requires lines != []
    requires forall line :: line in lines ==> '\n' !in line && (IsFolder(line) || IsBlank(line) || IsComment(line))
    requires forall name :: name in names <==> name in lines && IsFolder(name)
    ensures Folders(Join<char>(lines, '\n')) == names
  {
    SplitJoin<char>(lines, '\n');
    forall line | line in lines
      ensures NamesFolder(line) <==> line in names
      ensures NamesFolder(line) ==> WithSlash(line) == line
    {
      NamesFolderExactly(line);
    }
  }

  // ------------------------------------------------------- the unsynced list

  /** The journal's black list and the paths scheduled for remote discovery, in order. */
  class Journal {
    var blackList: set<string>
    var scheduled: seq<string>

    constructor (blackList: set<string>)
      ensures this.blackList == blackList && scheduled == []
    {
      this.blackList := blackList;
      scheduled := [];
    }

    method SchedulePath(path: string)
      modifies this`scheduled
      ensures scheduled == old(scheduled) + [path]
    {
      scheduled := scheduled + [path];
    }

    /** `selectiveSyncFixup`; `readable` tells whether the journal opens and its list can be read. */
    method SelectiveSyncFixup(newList: set<string>, readable: bool)
      modifies this
      ensures blackList == if readable then newList else old(blackList)
      ensures multiset(scheduled) == multiset(old(scheduled)) + Scheduled(old(blackList), Fixup(newList, readable))
    {
      if !readable {
        assert Scheduled(blackList, Fixup(newList, readable)) == multiset{};
        return;
      }
      var changes := (blackList - newList) + (newList - blackList);
      var todo := changes;
      while todo != {}
        invariant todo <= changes && blackList == old(blackList)
        invariant multiset(scheduled) == multiset(old(scheduled)) + multiset(changes - todo)
        decreases todo
      {
        var path :| path in todo;
        SchedulePath(path);
        assert changes - (todo - {path}) == (changes - todo) + {path};
        todo := todo - {path};
      }
      assert changes - todo == changes;
      blackList := newList;
    }
  }

  /** The folders of the file, if one was given and can be opened. */
  function FoldersOf(file: Option<string>): set<string> {
    if file.None? then {} else Folders(file.value)
  }

  /** What `sync` does before it starts: a file that lists no folder leaves the journal alone. */
  method PrepareJournal(journal: Journal, file: Option<string>, readable: bool)
    modifies journal
    ensures var stores := readable && FoldersOf(file) != {};
            && journal.blackList == (if stores then FoldersOf(file) else old(journal.blackList))
            && multiset(journal.scheduled)
               == multiset(old(journal.scheduled)) + Scheduled(old(journal.blackList), Fixup(FoldersOf(file), stores))
  {
    var unsynced := {};
    if file.Some? {
      unsynced := ReadFolders(file.value);
    }
    if unsynced != {} {
      journal.SelectiveSyncFixup(unsynced, readable);
    }
  }

  datatype Fixup = Fixup(newList: set<string>, readable: bool)

  /** The paths one fixup schedules: those whose membership changes, once each. */
  function Scheduled(blackList: set<string>, f: Fixup): multiset<string> {
    if f.readable then multiset((blackList - f.newList) + (f.newList - blackList)) else multiset{}
  }

  function Listed(initial: set<string>, fixups: seq<Fixup>): set<string> {
    if fixups == [] then initial
    else if Last(fixups).readable then Last(fixups).newList
    else Listed(initial, Front(fixups))
  }

  function AllScheduled(initial: set<string>, fixups: seq<Fixup>): multiset<string> {
    if fixups == [] then multiset{}
    else AllScheduled(initial, Front(fixups)) + Scheduled(Listed(initial, Front(fixups)), Last(fixups))
  }

  /** The lists the journal held, one after the other. */
  function History(initial: set<string>, fixups: seq<Fixup>): (h: seq<set<string>>)
    ensures h != [] && Last(h) == Listed(initial, fixups)
  {
    if fixups == [] then [initial]
    else History(initial, Front(fixups)) + (if Last(fixups).readable then [Last(fixups).newList] else [])
  }

  /** How often a path enters or leaves the list. */
  function Flips(h: seq<set<string>>, path: string): nat {
    if |h| < 2 then 0
    else Flips(Front(h), path) + (if (path in h[|h| - 2]) != (path in Last(h)) then 1 else 0)
  }

  /**
    Conservation: over any sequence of fixups a path is scheduled exactly as often as its
    membership in the black list flips.
   */
  lemma {:induction false} ScheduledAsOftenAsFlipped(initial: set<string>, fixups: seq<Fixup>, path: string)
    ensures AllScheduled(initial, fixups)[path] == Flips(History(initial, fixups), path)
  {
    if fixups != [] {
      var front, f := Front(fixups), Last(fixups);
      ScheduledAsOftenAsFlipped(initial, front, path);
      var h := History(initial, front);
      if f.readable {
        var h' := h + [f.newList];
        assert History(initial, fixups) == h' && Front(h') == h && Last(h') == f.newList;
        assert h'[|h'| - 2] == Last(h) == Listed(initial, front);
      } else {
        assert History(initial, fixups) == h;
      }
    }
  }

  /** The last of the first `n` fixups that could store its list; -1 if there is none. */
  ghost function LastReadable(fixups: seq<Fixup>, n: nat): (i: int)
    requires n <= |fixups|
    ensures -1 <= i < n
    ensures i >= 0 ==> fixups[i].readable
    ensures forall k :: i < k < n ==> !fixups[k].readable
  {
    if n == 0 then -1 else if fixups[n - 1].readable then n - 1 else LastReadable(fixups, n - 1)
  }

  lemma {:induction false} ListedIsLastReadable(initial: set<string>, fixups: seq<Fixup>, n: nat)
    requires n <= |fixups|
    ensures var i := LastReadable(fixups, n);
            Listed(initial, fixups[..n]) == if i < 0 then initial else fixups[i].newList
    decreases n
  {
    if n > 0 {
      assert Front(fixups[..n]) == fixups[..n - 1] && Last(fixups[..n]) == fixups[n - 1];
      ListedIsLastReadable(initial, fixups, n - 1);
    }
  }

  /** The stored list is the last one that could be stored. */
  lemma StoredListIsLastGiven(initial: set<string>, fixups: seq<Fixup>)
    ensures if forall i :: 0 <= i < |fixups| ==> !fixups[i].readable then Listed(initial, fixups) == initial
            else exists i :: 0 <= i < |fixups| && fixups[i].readable && Listed(initial, fixups) == fixups[i].newList
                          && forall k :: i < k < |fixups| ==> !fixups[k].readable
  {
    ListedIsLastReadable(initial, fixups, |fixups|);
    assert fixups[..|fixups|] == fixups;
  }

  // --------------------------------------------------------------- restarts

  /** A finished sync: whether it succeeded and whether another one is needed. */
  datatype Outcome = Outcome(success: bool, anotherNeeded: bool)

  /** The program exits with failure, quits, or gives up: then it neither syncs nor ends. */
  datatype Phase = Syncing | Failed | Quit | GaveUp

  class Engine {
    const restartTimes: int
    var restartCount: nat
    /** The number of `startSync` calls. */
    var started: nat
    var phase: Phase

    constructor (restartTimes: int)
      ensures this.restartTimes == restartTimes && restartCount == 0 && started == 1 && phase == Syncing
    {
      this.restartTimes := restartTimes;
      restartCount, started, phase := 0, 1, Syncing;
    }

    /** The handler of `finished`. */
    method Finished(o: Outcome)
      requires phase == Syncing
      modifies this
      ensures Progress(restartCount, started, phase)
           == Handled(restartTimes, old(Progress(restartCount, started, phase)), o)
    {
      if !o.success {
        phase := Failed;
      } else if o.anotherNeeded {
        if restartCount < restartTimes {
          restartCount := restartCount + 1;
          started := started + 1;
          return;
        }
        phase := GaveUp;
      } else {
        phase := Quit;
      }
    }
  }

  datatype Progress = Progress(restartCount: nat, started: nat, phase: Phase)

  function Handled(restartTimes: int, p: Progress, o: Outcome): Progress {
    if !o.success then p.(phase := Failed)
    else if !o.anotherNeeded then p.(phase := Quit)
    else if p.restartCount < restartTimes then p.(restartCount := p.restartCount + 1, started := p.started + 1)
    else p.(phase := GaveUp)
  }

  /** The program after these outcomes; once it stopped syncing there are no more. */
  function RunSyncs(restartTimes: int, outcomes: seq<Outcome>): Progress {
    if outcomes == [] then Progress(0, 1, Syncing)
    else
      var p := RunSyncs(restartTimes, Front(outcomes));
      if p.phase == Syncing then Handled(restartTimes, p, Last(outcomes)) else p
  }

  function NonNegative(n: int): nat { if n < 0 then 0 else n }

  /** The successful syncs in a row, from the first, that need another one. */
  function Unfinished(outcomes: seq<Outcome>): (n: nat)
    ensures n <= |outcomes|
    ensures forall i :: 0 <= i < n ==> outcomes[i] == Outcome(true, true)
    ensures n < |outcomes| ==> outcomes[n] != Outcome(true, true)
  {
    if outcomes != [] && outcomes[0] == Outcome(true, true) then 1 + Unfinished(outcomes[1..]) else 0
  }

  /** The outcome that ends the run, if it has been seen. */
  function Deciding(restartTimes: int, outcomes: seq<Outcome>): nat {
    var n := Unfinished(outcomes);
    if n <= NonNegative(restartTimes) then n else NonNegative(restartTimes)
  }

  /**
    Bounded restarts, exactly: one sync and one restart for each unfinished one, at most
    max(0, restartTimes) of them. The run then ends with the first outcome that is not
    unfinished, by quitting only if it succeeded; if the restarts run out first, it gives up.
   */
  lemma {:induction false} SyncsExactly(restartTimes: int, outcomes: seq<Outcome>)
    ensures var p, d := RunSyncs(restartTimes, outcomes), Deciding(restartTimes, outcomes);
            && p.started == 1 + d && p.restartCount == d && d <= NonNegative(restartTimes)
            && p.phase == if d == |outcomes| then Syncing
                          else if !outcomes[d].success then Failed
                          else if !outcomes[d].anotherNeeded then Quit
                          else GaveUp
  {
    if outcomes != [] {
      SyncsExactly(restartTimes, Front(outcomes));
      UnfinishedFront(outcomes);
    }
  }

  lemma UnfinishedFront(outcomes: seq<Outcome>)
    requires outcomes != []
    ensures var n, m := Unfinished(Front(outcomes)), Unfinished(outcomes);
            if n < |outcomes| - 1 then m == n
            else m == if Last(outcomes) == Outcome(true, true) then n + 1 else n
  {
    var n, m := Unfinished(Front(outcomes)), Unfinished(outcomes);
    assert forall i :: 0 <= i < |outcomes| - 1 ==> Front(outcomes)[i] == outcomes[i];
    if n < |outcomes| - 1 {
      assert outcomes[n] != Outcome(true, true);
    }
    if m < |outcomes| - 1 {
      assert Front(outcomes)[m] != Outcome(true, true);
    }
  }

  /** What follows: bounded starts, and quitting only after a clean sync. */
  lemma RestartsAreBounded(restartTimes: int, outcomes: seq<Outcome>)
    ensures RunSyncs(restartTimes, outcomes).started <= 1 + NonNegative(restartTimes)
    ensures RunSyncs(restartTimes, outcomes).phase == Quit ==>
              exists i :: 0 <= i < |outcomes| && outcomes[i] == Outcome(true, false)
  {
    SyncsExactly(restartTimes, outcomes);
    var d := Deciding(restartTimes, outcomes);
    if d < |outcomes| && outcomes[d].success && !outcomes[d].anotherNeeded {
      assert outcomes[d] == Outcome(true, false);
    }
  }
}
