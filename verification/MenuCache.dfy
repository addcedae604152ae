/**
  `MenuCache`: the menu of the last selection and the client's strings. `Lookup` and
  `LookupString` are what one call does under its lock; the runs below are serialised runs of
  any length.
 */
module MenuCaches {
  import opened Options
  import opened Splitting
  import opened Utf
  import opened Grammar
  import opened MenuList
  import opened PrintedMenus
  import opened Wire
  import opened SocketClients
  import opened Requests

  type Selection = seq<wstring>
  type Menu = seq<MenuItem>

  /** `_files` and `_menuItems`; the items are unset until they were requested. */
  datatype Cache = Cache(files: Selection, menuItems: Option<Menu>)

  const EMPTY_CACHE := Cache([], None)

  /** The call is answered without a request. */
  predicate Hit(c: Cache, files: Selection) {
    files == [] || (c.menuItems.Some? && files == c.files)
  }

  /** `menuItems(files)`, if a request would return `fetched`. */
  function Lookup(c: Cache, files: Selection, fetched: Menu): (r: (Cache, Menu)) {
    if Hit(c, files) then (c, if c.menuItems.Some? then c.menuItems.value else [])
    else
      var items := EraseSeparators(fetched);
      (Cache(files, Some(items)), items)
  }

  function LookupString(strings: map<wstring, wstring>, key: wstring, fetched: map<wstring, wstring>)
    : (r: (map<wstring, wstring>, wstring))
  {
    var now := if strings == map[] then fetched else strings;
    (now, if key in now then now[key] else [])
  }

  class MenuCache {
    const kernel: Kernel
    var files: Selection
    var menuItems: Option<Menu>
    var strings: map<wstring, wstring>

    function View(): Cache
      reads this
    {
      Cache(files, menuItems)
    }

    constructor (kernel: Kernel)
      ensures this.kernel == kernel && View() == EMPTY_CACHE && strings == map[]
    {
      this.kernel := kernel;
      files, menuItems, strings := [], None, map[];
    }

    method MenuItems(files: Selection) returns (items: Menu)
      modifies this`files, this`menuItems, kernel
      ensures var fetch := FetchedMenu(old(kernel.View()), files);
              && (View(), items) == Lookup(old(View()), files, fetch.1)
              && kernel.View() == if Hit(old(View()), files) then old(kernel.View()) else fetch.0
    {
      if files == [] || (menuItems.Some? && files == this.files) {
        return if menuItems.Some? then menuItems.value else [];
      }
      var fetched := SocketClient.FetchMenuItems(kernel, files);
      items := EraseSeparators(fetched);
      this.files := files;
      menuItems := Some(items);
    }

    method String(key: wstring) returns (value: wstring)
      modifies this`strings, kernel
      ensures var fetch := FetchedStrings(old(kernel.View()));
              && (strings, value) == LookupString(old(strings), key, fetch.1)
              && kernel.View() == if old(strings) == map[] then fetch.0 else old(kernel.View())
    {
      if strings == map[] {
        strings := SocketClient.FetchStrings(kernel);
      }
      value := if key in strings then strings[key] else [];
    }
  }

  /** What a request leaves in the cache is the item lines of the peer's reply, or nothing. */
  lemma FetchedItems(w: World, files: Selection)
    requires files != []
    ensures var items, reply := EraseSeparators(FetchedMenu(w, files).1), PeerReply(w, MENU_END);
            && (items == [] || (reply.Some? && items == ItemsOf(reply.value)))
            && (Answers(w, GET_MENU + JoinFiles(files), MENU_END) ==> reply.Some? && items == ItemsOf(reply.value))
  {
    FetchedMenuIsReference(w, files);
    var reply := PeerReply(w, MENU_END);
    if reply.Some? {
      EraseIsFusion(reply.value);
      NormalisedIsReference(reply.value);
    }
  }

  /** In terms of printed lines: the printed items of the peer's reply, in order. */
  lemma FetchedItemsArePrinted(w: World, files: Selection, printed: seq<PrintedLine>)
    requires files != [] && ArePrintable(printed)
    requires PeerReply(w, Wide("GET_MENU_ITEMS:END")) == Some(Texts(printed))
    ensures var items := EraseSeparators(FetchedMenu(w, files).1);
            && (items == [] || items == Items(printed))
            && (Answers(w, Wide("GET_MENU_ITEMS:") + JoinFiles(files), Wide("GET_MENU_ITEMS:END")) ==>
                  items == Items(printed))
  {
    FetchedItems(w, files);
    ItemsOfPrinted(printed);
  }

  // ------------------------------------------------------- serialised runs

  /** A call, and what a request would return at that moment. */
  datatype Query = Query(files: Selection, fetched: Menu)

  function After(c: Cache, queries: seq<Query>): (r: Cache) {
    if queries == [] then c
    else Lookup(After(c, Front(queries)), Last(queries).files, Last(queries).fetched).0
  }

  /** Query `i` of the run sends a request. */
  predicate Misses(c: Cache, queries: seq<Query>, i: nat)
    requires i < |queries|
  {
    !Hit(After(c, queries[..i]), queries[i].files)
  }

  function AnswerTo(c: Cache, queries: seq<Query>, i: nat): Menu
    requires i < |queries|
  {
    Lookup(After(c, queries[..i]), queries[i].files, queries[i].fetched).1
  }

  /** The selections the client is asked about in the run. */
  function RequestsOf(c: Cache, queries: seq<Query>): seq<Selection> {
    if queries == [] then []
    else
      RequestsOf(c, Front(queries))
      + (if Hit(After(c, Front(queries)), Last(queries).files) then [] else [Last(queries).files])
  }

  /** The replies to those requests. */
  function RepliesTo(c: Cache, queries: seq<Query>): seq<Menu> {
    if queries == [] then []
    else
      RepliesTo(c, Front(queries))
      + (if Hit(After(c, Front(queries)), Last(queries).files) then [] else [Last(queries).fetched])
  }

  /** The non-empty selections of the run. */
  function Selections(queries: seq<Query>): (s: seq<Selection>)
    ensures forall i :: 0 <= i < |s| ==> s[i] != []
  {
    if queries == [] then []
    else Selections(Front(queries)) + (if Last(queries).files == [] then [] else [Last(queries).files])
  }

  /** The sequence without the selections that repeat the one before them. */
  function WithoutRepeats(s: seq<Selection>): seq<Selection> {
    if s == [] then []
    else WithoutRepeats(Front(s)) + (if |s| == 1 || s[|s| - 2] != Last(s) then [Last(s)] else [])
  }

  /** The selection differs from the one before it; the first one counts. */
  predicate ChangesAt(s: seq<Selection>, i: nat)
    requires i < |s|
  {
    i == 0 || s[i - 1] != s[i]
  }

  function Changes(s: seq<Selection>): nat {
    |set i: nat | i < |s| && ChangesAt(s, i)|
  }

  lemma {:induction false} ChangesAreCounted(s: seq<Selection>)
    ensures |WithoutRepeats(s)| == Changes(s)
  {
    if s != [] {
      var front, n := Front(s), |s| - 1;
      ChangesAreCounted(front);
      assert forall i: nat :: i < n ==> ChangesAt(s, i) == ChangesAt(front, i);
      var before := set i: nat | i < n && ChangesAt(front, i);
      var all := set i: nat | i < |s| && ChangesAt(s, i);
      assert all == before + (if ChangesAt(s, n) then {n} else {});
    }
  }

  lemma AfterPrefix(c: Cache, queries: seq<Query>, i: nat)
    requires i < |queries|
    ensures After(c, queries[..i + 1]) == Lookup(After(c, queries[..i]), queries[i].files, queries[i].fetched).0
  {
    assert Front(queries[..i + 1]) == queries[..i];
  }

  /** The cache remembers the last non-empty selection, and nothing before the first one. */
  lemma {:induction false} CacheHoldsLastSelection(queries: seq<Query>)
    ensures var c, s := After(EMPTY_CACHE, queries), Selections(queries);
            if s == [] then c == EMPTY_CACHE else c.menuItems.Some? && c.files == Last(s)
  {
    if queries != [] {
      CacheHoldsLastSelection(Front(queries));
    }
  }

  /** Request counting: the client is asked exactly when the non-empty selection changes. */
  lemma {:induction false} RequestsAreChanges(queries: seq<Query>)
    ensures RequestsOf(EMPTY_CACHE, queries) == WithoutRepeats(Selections(queries))
    ensures |RequestsOf(EMPTY_CACHE, queries)| == Changes(Selections(queries))
  {
    ChangesAreCounted(Selections(queries));
    if queries != [] {
      RequestsAreChanges(Front(queries));
      CacheHoldsLastSelection(Front(queries));
      var s, q := Selections(Front(queries)), Last(queries);
      if q.files != [] {
        var s' := s + [q.files];
        assert Selections(queries) == s' && Front(s') == s && Last(s') == q.files;
        assert s != [] ==> s'[|s'| - 2] == Last(s);
      } else {
        assert Selections(queries) == s;
      }
    }
  }

  lemma {:induction false} OneReplyEach(c: Cache, queries: seq<Query>)
    ensures |RepliesTo(c, queries)| == |RequestsOf(c, queries)|
  {
    if queries != [] {
      OneReplyEach(c, Front(queries));
    }
  }

  /** The request and the reply of query `i` come after those of the queries before it. */
  lemma {:induction false} RequestOfMiss(c: Cache, queries: seq<Query>, i: nat)
    requires i < |queries| && Misses(c, queries, i)
    ensures var n := |RequestsOf(c, queries[..i])|;
            && |RequestsOf(c, queries)| == |RepliesTo(c, queries)| > n == |RepliesTo(c, queries[..i])|
            && RequestsOf(c, queries)[n] == queries[i].files && RepliesTo(c, queries)[n] == queries[i].fetched
  {
    var front := Front(queries);
    OneReplyEach(c, front);
    if i < |queries| - 1 {
      assert front[..i] == queries[..i];
      RequestOfMiss(c, front, i);
    } else {
      assert queries[..i] == front;
    }
  }

  /** Query `j` sent the request that the cache has held since, up to before query `i`. */
  ghost predicate LastRequest(queries: seq<Query>, j: nat, i: nat)
    requires i <= |queries|
  {
    j < i && Misses(EMPTY_CACHE, queries, j) && forall k :: j < k < i ==> !Misses(EMPTY_CACHE, queries, k)
  }

  /** The last query before query `i` that sent a request; -1 if there is none. */
  ghost function LastMiss(queries: seq<Query>, i: nat): (j: int)
    requires i <= |queries|
    ensures -1 <= j < i
    ensures j >= 0 ==> LastRequest(queries, j, i)
    ensures j < 0 ==> forall k: nat :: k < i ==> !Misses(EMPTY_CACHE, queries, k)
  {
    if i == 0 then -1
    else if Misses(EMPTY_CACHE, queries, i - 1) then i - 1
    else LastMiss(queries, i - 1)
  }

  /** What is cached was fetched by the last request, for its selection. */
  lemma {:induction false} CacheIsLastRequest(queries: seq<Query>, i: nat)
    requires i <= |queries|
    ensures var c, j := After(EMPTY_CACHE, queries[..i]), LastMiss(queries, i);
            c == if j < 0 then EMPTY_CACHE else Cache(queries[j].files, Some(EraseSeparators(queries[j].fetched)))
    decreases i
  {
    if i > 0 {
      CacheIsLastRequest(queries, i - 1);
      AfterPrefix(EMPTY_CACHE, queries, i - 1);
    }
  }

  /**
    A non-empty selection only ever receives separator-free items that a request for exactly
    that selection returned: its own request or the last one before it.
   */
  lemma AnswerWasFetchedForSelection(queries: seq<Query>, i: nat)
    requires i < |queries| && queries[i].files != []
    ensures exists j: nat :: LastRequest(queries, j, i + 1) && queries[j].files == queries[i].files
                     && AnswerTo(EMPTY_CACHE, queries, i) == EraseSeparators(queries[j].fetched)
  {
    CacheIsLastRequest(queries, i + 1);
    AfterPrefix(EMPTY_CACHE, queries, i);
    var j := LastMiss(queries, i + 1);
    assert LastRequest(queries, j, i + 1);
  }

  /** An empty selection receives the last stored items and changes nothing. */
  lemma EmptySelectionChangesNothing(queries: seq<Query>, i: nat)
    requires i < |queries| && queries[i].files == []
    ensures After(EMPTY_CACHE, queries[..i + 1]) == After(EMPTY_CACHE, queries[..i])
    ensures var answer := AnswerTo(EMPTY_CACHE, queries, i);
            if forall k: nat :: k < i ==> !Misses(EMPTY_CACHE, queries, k) then answer == []
            else exists j: nat :: LastRequest(queries, j, i) && answer == EraseSeparators(queries[j].fetched)
  {
    AfterPrefix(EMPTY_CACHE, queries, i);
    CacheIsLastRequest(queries, i);
    var j := LastMiss(queries, i);
    if j >= 0 {
      assert LastRequest(queries, j, i);
    }
  }

  /**
    Transparency: as long as the client's answer depends on the selection alone, the cached
    answer to a non-empty selection is the uncached one.
   */
  lemma CacheIsTransparent(queries: seq<Query>, serve: Selection -> Menu, i: nat)
    requires i < |queries| && queries[i].files != []
    requires forall k :: 0 <= k < |queries| ==> queries[k].fetched == serve(queries[k].files)
    ensures AnswerTo(EMPTY_CACHE, queries, i) == EraseSeparators(serve(queries[i].files))
  {
    AnswerWasFetchedForSelection(queries, i);
  }

  /** While the selection stays, every call receives the same items. */
  lemma {:induction false} SameSelectionSameAnswer(c: Cache, queries: seq<Query>, i: nat)
    requires i < |queries|
    requires forall k :: 0 <= k < |queries| ==> queries[k].files == queries[0].files
    ensures AnswerTo(c, queries, i) == AnswerTo(c, queries, 0)
    ensures var now := After(c, queries[..i + 1]);
            Lookup(now, queries[0].files, []) == (now, AnswerTo(c, queries, 0))
    decreases i
  {
    AfterPrefix(c, queries, i);
    if i > 0 {
      SameSelectionSameAnswer(c, queries, i - 1);
    }
  }

  /**
    A failed request is cached: if it fails in any way when the selection is first asked for,
    every call receives an empty menu until the selection changes, whatever the client would
    answer by then, and no further request is sent.
   */
  lemma FailureIsKept(c: Cache, w: World, queries: seq<Query>, i: nat)
    requires i < |queries| && Misses(c, queries, 0)
    requires Requested(w, GET_MENU + JoinFiles(queries[0].files), MENU_END).1.None?
    requires queries[0].fetched == FetchedMenu(w, queries[0].files).1
    requires forall k :: 0 <= k < |queries| ==> queries[k].files == queries[0].files
    ensures AnswerTo(c, queries, i) == []
    ensures i > 0 ==> !Misses(c, queries, i)
  {
    SameSelectionSameAnswer(c, queries, i);
    if i > 0 {
      SameSelectionSameAnswer(c, queries, i - 1);
      AfterPrefix(c, queries, i - 1);
    }
  }

  // ---------------------------------------------------------------- strings

  datatype StringQuery = StringQuery(key: wstring, fetched: map<wstring, wstring>)

  function StringsAfter(strings: map<wstring, wstring>, queries: seq<StringQuery>): (r: map<wstring, wstring>) {
    if queries == [] then strings
    else LookupString(StringsAfter(strings, Front(queries)), Last(queries).key, Last(queries).fetched).0
  }

  /** Query `i` of the run sends a request. */
  predicate AsksForStrings(queries: seq<StringQuery>, i: nat)
    requires i < |queries|
  {
    StringsAfter(map[], queries[..i]) == map[]
  }

  function StringAnswer(queries: seq<StringQuery>, i: nat): wstring
    requires i < |queries|
  {
    LookupString(StringsAfter(map[], queries[..i]), queries[i].key, queries[i].fetched).1
  }

  /** The first query for which the client would provide strings; the number of queries if there is none. */
  ghost function FirstProvided(queries: seq<StringQuery>): (k: nat)
    ensures k <= |queries|
    ensures forall i :: 0 <= i < k ==> queries[i].fetched == map[]
    ensures k < |queries| ==> queries[k].fetched != map[]
  {
    if queries == [] then 0
    else
      var k := FirstProvided(Front(queries));
      assert forall i :: 0 <= i < |queries| - 1 ==> Front(queries)[i] == queries[i];
      if k < |queries| - 1 || Last(queries).fetched != map[] then k else k + 1
  }

  lemma {:induction false} StringsBefore(queries: seq<StringQuery>, i: nat)
    requires i <= |queries|
    ensures var k := FirstProvided(queries);
            StringsAfter(map[], queries[..i]) == if i <= k then map[] else queries[k].fetched
    decreases i
  {
    if i > 0 {
      StringsBefore(queries, i - 1);
      assert Front(queries[..i]) == queries[..i - 1] && Last(queries[..i]) == queries[i - 1];
    }
  }

  /**
    Strings are requested until the client provides some, and never again: from then on every
    lookup is answered from those strings; before, every answer is empty.
   */
  lemma StringsAreFirstProvided(queries: seq<StringQuery>, i: nat)
    requires i < |queries|
    ensures var k := FirstProvided(queries);
            && (AsksForStrings(queries, i) <==> i <= k)
            && StringAnswer(queries, i) ==
               if i >= k && queries[i].key in queries[k].fetched then queries[k].fetched[queries[i].key] else []
  {
    StringsBefore(queries, i);
  }

  /** The number of requests of the run. */
  function StringRequests(queries: seq<StringQuery>): nat {
    if queries == [] then 0
    else StringRequests(Front(queries)) + (if StringsAfter(map[], Front(queries)) == map[] then 1 else 0)
  }

  /** What the requests of the run returned. */
  function StringReplies(queries: seq<StringQuery>): seq<map<wstring, wstring>> {
    if queries == [] then []
    else
      StringReplies(Front(queries))
      + (if StringsAfter(map[], Front(queries)) == map[] then [Last(queries).fetched] else [])
  }

  /** Those are what the queries up to and with the first one that provides strings fetched. */
  lemma {:induction false} RepliesUntilProvided(queries: seq<StringQuery>, i: nat)
    requires i <= |queries|
    ensures var k, replies := FirstProvided(queries), StringReplies(queries[..i]);
            && |replies| == (if i <= k then i else k + 1)
            && forall j :: 0 <= j < |replies| ==> replies[j] == queries[j].fetched
    decreases i
  {
    if i > 0 {
      RepliesUntilProvided(queries, i - 1);
      StringsBefore(queries, i - 1);
      assert Front(queries[..i]) == queries[..i - 1];
    }
  }

  /** As many requests as queries, up to and with the first one that provides strings. */
  lemma {:induction false} RequestsUntilProvided(queries: seq<StringQuery>, i: nat)
    requires i <= |queries|
    ensures var k := FirstProvided(queries); StringRequests(queries[..i]) == if i <= k then i else k + 1
    decreases i
  {
    if i > 0 {
      RequestsUntilProvided(queries, i - 1);
      StringsBefore(queries, i - 1);
      assert Front(queries[..i]) == queries[..i - 1];
    }
  }
}
