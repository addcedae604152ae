/**
  Searching for and splitting at a separator: `std::string::find`, and the one-shot
  splitting that the incremental reader and the printers are compared with.
 */
module Splitting {
  import opened Options

  /** `find(c, from)`; `None` is `npos`. */
  function IndexOf<T(==)>(s: seq<T>, c: T, from: nat := 0): (r: Option<nat>)
    requires from <= |s|
    ensures r.None? ==> forall k :: from <= k < |s| ==> s[k] != c
    ensures r.Some? ==> from <= r.value < |s| && s[r.value] == c && forall k :: from <= k < r.value ==> s[k] != c
    decreases |s| - from
  {
    if from == |s| then None
    else if s[from] == c then Some(from)
    else IndexOf(s, c, from + 1)
  }

  /** The pieces of `s` between occurrences of `sep`; there is always at least one. */
  function Split<T(==)>(s: seq<T>, sep: T): (parts: seq<seq<T>>)
    ensures parts != []
    decreases |s|
  {
    var i := IndexOf(s, sep);
    if i.None? then [s] else [s[..i.value]] + Split(s[i.value + 1..], sep)
  }

  /** The pieces with one `sep` between neighbours. */
  function Join<T>(parts: seq<seq<T>>, sep: T): (s: seq<T>)
    requires parts != []
  {
    if |parts| == 1 then parts[0] else parts[0] + [sep] + Join(parts[1..], sep)
  }

  ghost predicate AllFree<T(!new)>(parts: seq<seq<T>>, sep: T) {
    forall i :: 0 <= i < |parts| ==> sep !in parts[i]
  }

  function Last<T>(s: seq<T>): T
    requires s != []
  {
    s[|s| - 1]
  }

  function Front<T>(s: seq<T>): seq<T>
    requires s != []
  {
    s[..|s| - 1]
  }

  lemma FirstOccurrence<T>(a: seq<T>, c: T, b: seq<T>)
    requires c !in a
    ensures IndexOf(a + [c] + b, c) == Some(|a|)
  {
    var s := a + [c] + b;
    assert s[|a|] == c;
    assert forall k :: 0 <= k < |a| ==> s[k] == a[k];
  }

  /** Searching from an offset is searching the rest. */
  lemma {:induction false} IndexOfShift<T>(s: seq<T>, c: T, from: nat, k: nat)
    requires from + k <= |s|
    ensures var i, j := IndexOf(s, c, from + k), IndexOf(s[from..], c, k);
            i == if j.None? then None else Some(from + j.value)
    decreases |s| - k
  {
    if from + k < |s| && s[from + k] != c {
      IndexOfShift(s, c, from, k + 1);
    }
  }

  /** Cutting around the separator at a known position. */
  lemma Cut<T>(a: seq<T>, x: T, b: seq<T>)
    ensures var s := a + [x] + b; |s| == |a| + 1 + |b| && s[|a|] == x && s[..|a|] == a && s[|a| + 1..] == b
  {
  }

  /** The first separator, its surroundings, and where the search finds it. */
  lemma FirstCut<T>(s: seq<T>, c: T) returns (a: seq<T>, b: seq<T>)
    requires c in s
    ensures c !in a && s == a + [c] + b && IndexOf(s, c) == Some(|a|)
  {
    var i := IndexOf(s, c).value;
    a, b := s[..i], s[i + 1..];
  }

  lemma NotFound<T>(s: seq<T>, c: T)
    requires c !in s
    ensures IndexOf(s, c) == None
  {
  }

  lemma SplitFree<T>(s: seq<T>, sep: T)
    requires sep !in s
    ensures Split(s, sep) == [s]
  {
  }

  /** The first separator cuts off the first piece. */
  lemma SplitFirst<T>(a: seq<T>, sep: T, b: seq<T>)
    requires sep !in a
    ensures Split(a + [sep] + b, sep) == [a] + Split(b, sep)
  {
    var s := a + [sep] + b;
    FirstOccurrence(a, sep, b);
    assert s[..|a|] == a && s[|a| + 1..] == b;
  }

  /** Splitting loses nothing, and no piece holds a separator. */
  lemma {:induction false} JoinSplit<T(!new)>(s: seq<T>, sep: T)
    ensures AllFree(Split(s, sep), sep)
    ensures Join(Split(s, sep), sep) == s
    decreases |s|
  {
    var i := IndexOf(s, sep);
    if i.Some? {
      var rest := s[i.value + 1..];
      JoinSplit(rest, sep);
      var parts := Split(s, sep);
      assert parts[1..] == Split(rest, sep);
      assert s == s[..i.value] + [sep] + rest;
    }
  }

  /** The pieces are the only separator-free ones that join to `s`. */
  lemma {:induction false} SplitJoin<T(!new)>(parts: seq<seq<T>>, sep: T)
    requires parts != [] && AllFree(parts, sep)
    ensures Split(Join(parts, sep), sep) == parts
  {
    if |parts| == 1 {
      SplitFree(parts[0], sep);
    } else {
      var tail := parts[1..];
      SplitJoin(tail, sep);
      SplitFirst(parts[0], sep, Join(tail, sep));
      assert parts == [parts[0]] + tail;
    }
  }

  /** A piece is cut off in front of whatever follows it. */
  lemma SplitStep<T(!new)>(s: seq<T>, sep: T) returns (head: seq<T>, rest: seq<T>)
    requires sep in s
    ensures sep !in head && s == head + [sep] + rest && |rest| < |s|
    ensures Split(s, sep) == [head] + Split(rest, sep)
  {
    var i := IndexOf(s, sep).value;
    head, rest := s[..i], s[i + 1..];
  }

  /** Splitting at a separator anywhere splits both sides on their own. */
  lemma {:induction false} SplitAround<T(!new)>(a: seq<T>, sep: T, b: seq<T>)
    ensures Split(a + [sep] + b, sep) == Split(a, sep) + Split(b, sep)
    decreases |a|
  {
    if sep !in a {
      SplitFirst(a, sep, b);
      SplitFree(a, sep);
    } else {
      var head, rest := SplitStep(a, sep);
      var after := rest + [sep] + b;
      calc {
        Split(a + [sep] + b, sep);
        { assert a + [sep] + b == head + [sep] + after; }
        Split(head + [sep] + after, sep);
        { SplitFirst(head, sep, after); }
        [head] + Split(after, sep);
        { SplitAround(rest, sep, b); }
        [head] + (Split(rest, sep) + Split(b, sep));
        Split(a, sep) + Split(b, sep);
      }
    }
  }

  lemma InParts<T>(s: seq<T>, n: nat, x: T)
    requires n <= |s|
    ensures x in s <==> x in s[..n] || x in s[n..]
  {
    assert s == s[..n] + s[n..];
  }

  lemma InFrontOrLast<T(!new)>(s: seq<T>)
    requires s != []
    ensures forall x :: x in s <==> x in Front(s) || x == Last(s)
  {
    assert s == Front(s) + [Last(s)];
  }

  lemma Regroup<T>(a: seq<T>, b: seq<T>, c: seq<T>, d: seq<T>)
    ensures a + (b + c + d) == (a + b) + c + d
  {
  }
}
