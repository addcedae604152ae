/**
  The release configuration: the order of version tags and the choice of the latest one.
  `key` stands for the collation of pre-release texts: `localeCompare` compares the keys, so
  every total preorder on texts is covered.
 */
module ReleaseConfig {
  import opened Splitting

  type Collation = string -> real

  /** A JavaScript number, or no number at all. */
  datatype Num = Undefined | NaN | Val(value: int)

  /** An absent and an empty pre-release are both false, so both are "". */
  datatype Version = Version(major: Num, minor: Num, patch: Num, pre: string)

  predicate IsDigits(s: string) {
    forall i :: 0 <= i < |s| ==> '0' <= s[i] <= '9'
  }

  function Decimal(s: string): (n: nat)
    requires IsDigits(s)
  {
    if s == "" then 0 else 10 * Decimal(Front(s)) + (Last(s) as int - '0' as int)
  }

  /** `Number(text)`; the empty text is 0. */
  function Number(s: string): Num {
    if IsDigits(s) then Val(Decimal(s)) else NaN
  }

  function Component(parts: seq<string>, i: nat): Num {
    if i < |parts| then Number(parts[i]) else Undefined
  }

  function ParseVersion(tag: string): (v: Version) {
    VersionOf(Split<char>(if "v" <= tag then tag[1..] else tag, '-'))
  }

  /** The version in the parts between hyphens; parts after the second are ignored. */
  function VersionOf(parts: seq<string>): (v: Version)
    requires parts != []
  {
    var numbers := Split<char>(parts[0], '.');
    Version(Component(numbers, 0), Component(numbers, 1), Component(numbers, 2), if |parts| > 1 then parts[1] else "")
  }

  /** `!==` */
  predicate Differs(a: Num, b: Num) {
    a.NaN? || b.NaN? || a != b
  }

  function Minus(a: Num, b: Num): Num {
    if a.Val? && b.Val? then Val(a.value - b.value) else NaN
  }

  function LocaleCompare(a: string, b: string, key: Collation): Num {
    if key(a) < key(b) then Val(-1) else if key(a) > key(b) then Val(1) else Val(0)
  }

  function Compare(va: Version, vb: Version, key: Collation): Num {
    if Differs(va.major, vb.major) then Minus(va.major, vb.major)
    else if Differs(va.minor, vb.minor) then Minus(va.minor, vb.minor)
    else if Differs(va.patch, vb.patch) then Minus(va.patch, vb.patch)
    else if va.pre != "" && vb.pre == "" then Val(-1)
    else if va.pre == "" && vb.pre != "" then Val(1)
    else if va.pre != "" && vb.pre != "" then LocaleCompare(va.pre, vb.pre, key)
    else Val(0)
  }

  function CompareVersions(a: string, b: string, key: Collation): Num {
    Compare(ParseVersion(a), ParseVersion(b), key)
  }

  // ------------------------------------------------------------- the order

  /** Three numbers: the tags that have a place in the order. */
  predicate IsProper(v: Version) {
    v.major.Val? && v.minor.Val? && v.patch.Val?
  }

  /** major.minor.patch */
  function Core(major: string, minor: string, patch: string): string {
    major + ['.'] + (minor + ['.'] + patch)
  }

  lemma CoreNumbers(major: string, minor: string, patch: string)
    requires IsDigits(major) && IsDigits(minor) && IsDigits(patch)
    ensures Split<char>(Core(major, minor, patch), '.') == [major, minor, patch]
  {
    var rest := minor + ['.'] + patch;
    SplitFree<char>(patch, '.');
    SplitFirst<char>(minor, '.', patch);
    SplitFirst<char>(major, '.', rest);
    assert [major] + ([minor] + [patch]) == [major, minor, patch];
  }

  lemma CoreHasNoHyphen(major: string, minor: string, patch: string)
    requires IsDigits(major) && IsDigits(minor) && IsDigits(patch)
    ensures '-' !in Core(major, minor, patch)
  {
    assert '-' !in major && '-' !in minor && '-' !in patch;
    assert '-' !in minor + ['.'] + patch;
  }

  /** What the source keeps of a pre-release: its part in front of a hyphen. */
  function KeptPreRelease(pre: string): string {
    Split<char>(pre, '-')[0]
  }

  /**
    Tags of the usual form, with or without the v, are proper, and their parts are what they
    look like, except that a pre-release loses what follows its first hyphen.
   */
  lemma WellFormedTagIsProper(major: string, minor: string, patch: string, pre: string)
    requires IsDigits(major) && IsDigits(minor) && IsDigits(patch)
    ensures var core := Core(major, minor, patch);
            var numbers := Version(Val(Decimal(major)), Val(Decimal(minor)), Val(Decimal(patch)), "");
            && ParseVersion("v" + core) == ParseVersion(core) == numbers
            && ParseVersion("v" + (core + ['-'] + pre)) == numbers.(pre := KeptPreRelease(pre))
  {
    var core := Core(major, minor, patch);
    CoreNumbers(major, minor, patch);
    CoreHasNoHyphen(major, minor, patch);
    SplitFree<char>(core, '-');
    assert core[0] != 'v' by {
      assert core[0] == if major == "" then '.' else major[0];
    }
    ParseTag(core);
    SplitFirst<char>(core, '-', pre);
    ParseTag(core + ['-'] + pre);
  }

  lemma ParseTag(version: string)
    ensures ParseVersion("v" + version) == VersionOf(Split<char>(version, '-'))
  {
    assert ("v" + version)[1..] == version;
  }

  /** Nothing but the characters U+0030 to U+0039. */
  predicate HasDigitsOnly(s: string) {
    forall c :: c in s ==> 0x30 <= c as int <= 0x39
  }

  lemma DigitsExactly(s: string)
    ensures IsDigits(s) <==> HasDigitsOnly(s)
  {
    if HasDigitsOnly(s) {
      assert forall i :: 0 <= i < |s| ==> s[i] in s;
    }
  }

  /** The numbers of a tag: the pieces between dots in front of the first hyphen, without a leading v. */
  function NumbersOf(tag: string): seq<string> {
    Split<char>(Split<char>(if tag != "" && tag[0] == 'v' then tag[1..] else tag, '-')[0], '.')
  }

  /** A tag is proper exactly if it has at least three numbers and the first three are digits. */
  lemma TagIsProperExactly(tag: string)
    ensures var n := NumbersOf(tag);
            IsProper(ParseVersion(tag)) <==>
              |n| >= 3 && HasDigitsOnly(n[0]) && HasDigitsOnly(n[1]) && HasDigitsOnly(n[2])
  {
    var n := NumbersOf(tag);
    if |n| >= 3 {
      DigitsExactly(n[0]);
      DigitsExactly(n[1]);
      DigitsExactly(n[2]);
    }
  }

  /** The usual decimal text of a number. */
  function Digits(n: nat): (s: string)
    ensures IsDigits(s)
  {
    if n < 10 then ['0' + n as char] else Digits(n / 10) + ['0' + (n % 10) as char]
  }

  lemma {:induction false} DecimalOfDigits(n: nat)
    ensures Decimal(Digits(n)) == n
  {
    var tens, s := n / 10, Digits(n);
    if n < 10 {
      assert Front(s) == "";
    } else {
      DecimalOfDigits(tens);
      assert Front(s) == Digits(tens);
    }
  }

  lemma KeptExactly(pre: string)
    ensures KeptPreRelease(pre) == pre <==> '-' !in pre
  {
    JoinSplit<char>(pre, '-');
    if '-' !in pre {
      SplitFree<char>(pre, '-');
    }
  }

  /**
    The tag printed for three numbers and a pre-release is parsed back into them if and only
    if the pre-release has no hyphen.
   */
  lemma PrintedTagIsParsed(major: nat, minor: nat, patch: nat, pre: string)
    ensures var tag := "v" + (Core(Digits(major), Digits(minor), Digits(patch)) + ['-'] + pre);
            ParseVersion(tag) == Version(Val(major), Val(minor), Val(patch), pre) <==> '-' !in pre
  {
    WellFormedTagIsProper(Digits(major), Digits(minor), Digits(patch), pre);
    DecimalOfDigits(major);
    DecimalOfDigits(minor);
    DecimalOfDigits(patch);
    KeptExactly(pre);
  }

  /**
    Precedence as in items 2 and 3 of section 11 of Semantic Versioning 2.0.0: numerically by
    major, minor and patch, a pre-release before its release; pre-releases by collation.
   */
  predicate Precedes(a: Version, b: Version, key: Collation)
    requires IsProper(a) && IsProper(b)
  {
    || a.major.value < b.major.value
    || (a.major == b.major && (
          || a.minor.value < b.minor.value
          || (a.minor == b.minor && (
                || a.patch.value < b.patch.value
                || (a.patch == b.patch && a.pre != "" && (b.pre == "" || key(a.pre) < key(b.pre)))))))
  }

  /** On proper versions the comparator is exactly the precedence. */
  lemma CompareIsPrecedence(a: Version, b: Version, key: Collation)
    requires IsProper(a) && IsProper(b)
    ensures var c := Compare(a, b, key);
            && c.Val?
            && (c.value < 0 <==> Precedes(a, b, key))
            && (c.value > 0 <==> Precedes(b, a, key))
  {
  }

  predicate AtMost(a: Version, b: Version, key: Collation) {
    Compare(a, b, key).Val? && Compare(a, b, key).value <= 0
  }

  /** A total preorder: reflexive, sign-antisymmetric, transitive, total. */
  lemma CompareIsTotalPreorder(a: Version, b: Version, c: Version, key: Collation)
    requires IsProper(a) && IsProper(b) && IsProper(c)
    ensures Compare(a, a, key) == Val(0)
    ensures Compare(a, b, key).value < 0 <==> Compare(b, a, key).value > 0
    ensures Compare(a, b, key).value == 0 <==> Compare(b, a, key).value == 0
    ensures AtMost(a, b, key) && AtMost(b, c, key) ==> AtMost(a, c, key)
    ensures AtMost(a, b, key) || AtMost(b, a, key)
  {
    CompareIsPrecedence(a, b, key);
    CompareIsPrecedence(b, c, key);
    CompareIsPrecedence(a, c, key);
  }

  /** The first component in which the versions differ, if any. */
  function FirstDifference(a: Version, b: Version): seq<(Num, Num)> {
    if Differs(a.major, b.major) then [(a.major, b.major)]
    else if Differs(a.minor, b.minor) then [(a.minor, b.minor)]
    else if Differs(a.patch, b.patch) then [(a.patch, b.patch)]
    else []
  }

  /** Malformed tags: the result is no number exactly when the first difference is not between numbers. */
  lemma CompareIsNaNExactly(a: Version, b: Version, key: Collation)
    ensures var d := FirstDifference(a, b);
            Compare(a, b, key).NaN? <==> d != [] && !(d[0].0.Val? && d[0].1.Val?)
    ensures !Compare(a, b, key).Undefined?
  {
  }

  /** So the comparator is reflexive exactly where no component is unreadable. */
  lemma CompareReflexiveExactly(a: Version, key: Collation)
    ensures Compare(a, a, key) == Val(0) <==> !a.major.NaN? && !a.minor.NaN? && !a.patch.NaN?
  {
  }

  // --------------------------------------------------------- the latest tag

  function StartingWith(tags: seq<string>, prefix: string): (kept: seq<string>)
    ensures forall t :: t in kept <==> t in tags && prefix <= t
  {
    if tags == [] then []
    else StartingWith(Front(tags), prefix) + (if prefix <= Last(tags) then [Last(tags)] else [])
  }

  ghost predicate AllProper(tags: seq<string>) {
    forall t :: t in tags ==> IsProper(ParseVersion(t))
  }

  ghost predicate IsSorted(tags: seq<string>, key: Collation) {
    forall i, j :: 0 <= i < j < |tags| ==> AtMost(ParseVersion(tags[i]), ParseVersion(tags[j]), key)
  }

  /** `getTags`: any sorting of the tags that start with v. */
  ghost predicate IsTagList(tags: seq<string>, gitTags: seq<string>, key: Collation) {
    multiset(tags) == multiset(StartingWith(gitTags, "v")) && IsSorted(tags, key)
  }

  /** Filtering keeps the order. */
  lemma {:induction false} FilterKeepsSorted(tags: seq<string>, prefix: string, key: Collation)
    requires IsSorted(tags, key)
    ensures IsSorted(StartingWith(tags, prefix), key)
  {
    if tags != [] {
      var kept := StartingWith(Front(tags), prefix);
      FilterKeepsSorted(Front(tags), prefix, key);
      forall i | 0 <= i < |kept| && prefix <= Last(tags)
        ensures AtMost(ParseVersion(kept[i]), ParseVersion(Last(tags)), key)
      {
        assert kept[i] in kept;
        var k :| 0 <= k < |Front(tags)| && Front(tags)[k] == kept[i];
        assert tags[k] == kept[i];
      }
    }
  }

  lemma StableBranchHasVersion(branch: string)
    requires "stable-" <= branch
    ensures |Split<char>(branch, '-')| > 1
  {
    assert branch[6] == '-';
    var head, rest := SplitStep<char>(branch, '-');
  }

  /** The prefix of the tags of a stable branch, and none for other branches. */
  function StablePrefix(branch: string): (prefix: string)
    ensures "v" <= prefix
  {
    if "stable-" <= branch then
      StableBranchHasVersion(branch);
      "v" + Split<char>(branch, '-')[1]
    else "v"
  }

  /** The tags the choice is made from. */
  function Candidates(branch: string, tags: seq<string>): seq<string> {
    var matching := StartingWith(tags, StablePrefix(branch));
    if "stable-" <= branch && matching != [] then matching else tags
  }

  /** `tags.pop() || 'v0.0.0'` */
  function LastOrDefault(tags: seq<string>): string {
    if tags == [] || Last(tags) == "" then "v0.0.0" else Last(tags)
  }

  /**
    The latest tag for a branch: v0.0.0 without v-tags; otherwise a greatest one of those with the
    branch's prefix if there are any, of all v-tags if there are none.
   */
  ghost predicate IsLatestFor(tag: string, branch: string, gitTags: seq<string>, key: Collation) {
    var vTags, matching := StartingWith(gitTags, "v"), StartingWith(gitTags, StablePrefix(branch));
    if vTags == [] then tag == "v0.0.0"
    else if matching != [] then IsGreatest(tag, matching, key)
    else IsGreatest(tag, vTags, key)
  }

  method GetLatestTag(branch: string, tags: seq<string>) returns (tag: string)
    ensures tag == LastOrDefault(Candidates(branch, tags))
    ensures forall gitTags, key ::
              IsTagList(tags, gitTags, key) && AllProper(StartingWith(gitTags, "v")) ==>
                IsLatestFor(tag, branch, gitTags, key)
  {
    forall gitTags, key | IsTagList(tags, gitTags, key) && AllProper(StartingWith(gitTags, "v"))
      ensures IsLatestFor(LastOrDefault(Candidates(branch, tags)), branch, gitTags, key)
    {
      LastCandidateIsLatest(branch, tags, gitTags, key);
    }
    var remaining := tags;
    if "stable-" <= branch {
      StableBranchHasVersion(branch);
      var majorAndMinor := Split<char>(branch, '-')[1];
      var matchingTags := StartingWith(remaining, "v" + majorAndMinor);
      if |matchingTags| != 0 {
        remaining := matchingTags;
      }
    }
    if remaining == [] {
      return "v0.0.0";
    }
    tag, remaining := remaining[|remaining| - 1], remaining[..|remaining| - 1];
    if tag == "" {
      tag := "v0.0.0";
    }
  }

  /**
    The chosen tag is a greatest one: of the tags with the stable branch's prefix if there are
    any, of all v-tags otherwise; without v-tags it is v0.0.0.
   */
  lemma LatestTagIsGreatest(branch: string, tags: seq<string>, gitTags: seq<string>, key: Collation)
    requires IsTagList(tags, gitTags, key) && AllProper(StartingWith(gitTags, "v"))
    ensures var pool := Candidates(branch, tags);
            && (pool == [] <==> StartingWith(gitTags, "v") == [])
            && (forall t :: t in pool ==> t in gitTags && "v" <= t)
            && (pool != [] ==> (
                  && Last(pool) in pool && Last(pool) != ""
                  && (forall t :: t in pool ==> AtMost(ParseVersion(t), ParseVersion(Last(pool)), key))))
    ensures var prefix, pool := StablePrefix(branch), Candidates(branch, tags);
            if exists t :: t in gitTags && prefix <= t
            then forall t :: t in pool <==> t in gitTags && prefix <= t
            else forall t :: t in pool <==> t in gitTags && "v" <= t
  {
    var vTags, prefix := StartingWith(gitTags, "v"), StablePrefix(branch);
    SameMembers(tags, vTags);
    FilterKeepsSorted(tags, prefix, key);
    var matching, pool := StartingWith(tags, prefix), Candidates(branch, tags);
    forall t | t in gitTags && prefix <= t
      ensures t in matching
    {
      assert "v" <= t;
      assert t in vTags;
    }
    if matching != [] {
      assert matching[0] in matching;
    }
    if pool != [] {
      var last := ParseVersion(Last(pool));
      assert Last(pool) in pool;
      CompareIsTotalPreorder(last, last, last, key);
      forall t | t in pool
        ensures AtMost(ParseVersion(t), last, key)
      {
        var i :| 0 <= i < |pool| && pool[i] == t;
      }
    }
    if vTags != [] {
      assert vTags[0] in vTags;
    }
    if tags != [] {
      assert tags[0] in tags;
    }
  }

  lemma LastCandidateIsLatest(branch: string, tags: seq<string>, gitTags: seq<string>, key: Collation)
    requires IsTagList(tags, gitTags, key) && AllProper(StartingWith(gitTags, "v"))
    ensures IsLatestFor(LastOrDefault(Candidates(branch, tags)), branch, gitTags, key)
  {
    LatestTagIsGreatest(branch, tags, gitTags, key);
    var matching := StartingWith(gitTags, StablePrefix(branch));
    if matching != [] {
      assert matching[0] in matching;
    }
  }

  lemma SameMembers(a: seq<string>, b: seq<string>)
    requires multiset(a) == multiset(b)
    ensures forall t :: t in a <==> t in b
  {
    forall t
      ensures t in a <==> t in b
    {
      assert t in a <==> t in multiset(a);
      assert t in b <==> t in multiset(b);
    }
  }

  lemma StablePrefixOf(version: string)
    requires '-' !in version
    ensures StablePrefix("stable-" + version) == "v" + version
  {
    assert "stable-" + version == "stable" + ['-'] + version;
    SplitFirst<char>("stable", '-', version);
    SplitFree<char>(version, '-');
  }

  /** Of two texts with a dot after digits, one starts the other if their heads agree. */
  lemma DottedPrefix(m: string, n: string, major: string, rest: string)
    requires IsDigits(m) && IsDigits(major)
    ensures m + ['.'] + n <= major + ['.'] + rest <==> m == major && n <= rest
  {
    var short, long := m + ['.'] + n, major + ['.'] + rest;
    Cut<char>(m, '.', n);
    Cut<char>(major, '.', rest);
    if short <= long {
      SameHead(m, n, major, rest);
      assert long[|m| + 1..][..|n|] == n;
    }
    assert m == major && n <= rest ==> long == short + rest[|n|..];
  }

  lemma SameHead(m: string, n: string, major: string, rest: string)
    requires IsDigits(m) && IsDigits(major) && m + ['.'] + n <= major + ['.'] + rest
    ensures m == major
  {
    var short, long := m + ['.'] + n, major + ['.'] + rest;
    assert forall k :: 0 <= k < |short| ==> short[k] == long[k];
    assert short[|m|] == '.' && long[|major|] == '.';
    assert forall k :: 0 <= k < |m| ==> short[k] == m[k];
    assert forall k :: 0 <= k < |major| ==> long[k] == major[k];
    assert |m| == |major|;
  }

  /**
    The filter of branch stable-M.m admits exactly the tags whose major number is M and whose
    minor number begins with the digits m, whatever follows: on stable-1.2 also v1.20.0 and
    v1.20.0-rc.1.
   */
  lemma StableTagsExactly(m: string, n: string, major: string, minor: string, rest: string)
    requires IsDigits(m) && IsDigits(n) && IsDigits(major)
    ensures StablePrefix("stable-" + (m + ['.'] + n)) <= "v" + Core(major, minor, rest) <==> m == major && n <= minor
  {
    StablePrefixOf(m + ['.'] + n);
    PrefixAfter('v', m + ['.'] + n, Core(major, minor, rest));
    DottedPrefix(m, n, major, minor + ['.'] + rest);
    DigitsPrefix(n, minor, rest);
  }

  lemma PrefixAfter(c: char, a: string, b: string)
    ensures [c] + a <= [c] + b <==> a <= b
  {
    assert ([c] + a)[1..] == a && ([c] + b)[1..] == b;
    if [c] + a <= [c] + b {
      assert forall k :: 0 <= k < |a| ==> a[k] == ([c] + a)[k + 1] == ([c] + b)[k + 1] == b[k];
    }
  }

  lemma DigitsPrefix(n: string, minor: string, patch: string)
    requires IsDigits(n)
    ensures n <= minor + ['.'] + patch <==> n <= minor
  {
    var rest := minor + ['.'] + patch;
    assert rest[|minor|] == '.' && rest[..|minor|] == minor;
    if n <= rest {
      assert forall k :: 0 <= k < |n| ==> n[k] == rest[k];
      assert |n| <= |minor|;
    }
  }

  /**
    Where the comparison gives -1: the second version is newer and the first number that
    differs is one more than before (or only the pre-releases differ).
   */
  lemma MarkedAsLatestExactly(latest: Version, next: Version, key: Collation)
    requires IsProper(latest) && IsProper(next)
    ensures Compare(latest, next, key) == Val(-1) <==> Precedes(latest, next, key) && IsOneStep(latest, next)
  {
  }

  /** The first number that differs, if any, is one more. */
  predicate IsOneStep(a: Version, b: Version)
    requires IsProper(a) && IsProper(b)
  {
    var d := FirstDifference(a, b);
    d != [] ==> d[0].1.value == d[0].0.value + 1
  }

  function MajorVersion(major: int): Version { Version(Val(major), Val(0), Val(0), "") }

  ghost predicate IsGreatest(tag: string, tags: seq<string>, key: Collation) {
    tag in tags && forall t :: t in tags ==> AtMost(ParseVersion(t), ParseVersion(tag), key)
  }

  /** The version is newer than every tag, or than 0.0.0 if there is none. */
  ghost predicate IsNewest(next: Version, tags: seq<string>, key: Collation)
    requires IsProper(next) && AllProper(tags)
  {
    if tags == [] then Precedes(MajorVersion(0), next, key)
    else forall t :: t in tags ==> Precedes(ParseVersion(t), next, key)
  }

  /** It is one step after a greatest tag. */
  ghost predicate FollowsGreatest(next: Version, tags: seq<string>, key: Collation)
    requires IsProper(next) && AllProper(tags)
  {
    if tags == [] then IsOneStep(MajorVersion(0), next)
    else exists t :: t in tags && IsGreatest(t, tags, key) && IsOneStep(ParseVersion(t), next)
  }

  /**
    `useLatestRelease`, with the sorted tags: the release is marked as latest exactly if it is
    newer than every v-tag and one step after a greatest one.
   */
  method UseLatestRelease(tags: seq<string>, nextVersion: string, key: Collation) returns (latest: bool)
    ensures latest == (CompareVersions(LastOrDefault(tags), nextVersion, key) == Val(-1))
    ensures forall gitTags :: IsTagList(tags, gitTags, key) && IsProper(ParseVersion(nextVersion)) ==>
              var vTags, next := StartingWith(gitTags, "v"), ParseVersion(nextVersion);
              AllProper(vTags) ==> (latest <==> IsNewest(next, vTags, key) && FollowsGreatest(next, vTags, key))
  {
    var remaining := tags;
    var latestTag := "v0.0.0";
    if remaining != [] {
      if remaining[|remaining| - 1] != "" {
        latestTag := remaining[|remaining| - 1];
      }
      remaining := remaining[..|remaining| - 1];
    }
    latest := CompareVersions(latestTag, nextVersion, key) == Val(-1);
    forall gitTags | IsTagList(tags, gitTags, key) && IsProper(ParseVersion(nextVersion))
                     && AllProper(StartingWith(gitTags, "v"))
      ensures var vTags, next := StartingWith(gitTags, "v"), ParseVersion(nextVersion);
              latest <==> IsNewest(next, vTags, key) && FollowsGreatest(next, vTags, key)
    {
      MarkedOverTags(tags, gitTags, nextVersion, key);
    }
  }

  lemma OneDigit(d: char)
    requires '0' <= d <= '9'
    ensures IsDigits([d]) && Decimal([d]) == d as int - '0' as int
  {
    assert Front([d]) == [];
  }

  /** A tag such as 3.0.0, with and without the v. */
  lemma MajorTag(major: string, zero: string)
    requires IsDigits(major) && IsDigits(zero) && Decimal(zero) == 0
    ensures var tag := Core(major, zero, zero);
            ParseVersion(tag) == ParseVersion("v" + tag) == MajorVersion(Decimal(major))
  {
    WellFormedTagIsProper(major, zero, zero, zero);
  }

  lemma DefaultTag(tag: string)
    requires tag == "v0.0.0"
    ensures ParseVersion(tag) == MajorVersion(0)
  {
    assert tag == "v" + Core(['0'], ['0'], ['0']);
    OneDigit('0');
    MajorTag(['0'], ['0']);
  }

  lemma MarkedOverTags(tags: seq<string>, gitTags: seq<string>, nextVersion: string, key: Collation)
    requires IsTagList(tags, gitTags, key) && IsProper(ParseVersion(nextVersion))
    requires AllProper(StartingWith(gitTags, "v"))
    ensures var vTags, next := StartingWith(gitTags, "v"), ParseVersion(nextVersion);
            CompareVersions(LastOrDefault(tags), nextVersion, key) == Val(-1)
            <==> IsNewest(next, vTags, key) && FollowsGreatest(next, vTags, key)
  {
    var vTags, next := StartingWith(gitTags, "v"), ParseVersion(nextVersion);
    LatestTagIsGreatest("", tags, gitTags, key);
    SameMembers(tags, vTags);
    if vTags == [] {
      DefaultTag(LastOrDefault(tags));
      MarkedAsLatestExactly(MajorVersion(0), next, key);
    } else {
      var last := Last(tags);
      assert last in vTags && IsGreatest(last, vTags, key);
      MarkedAsLatestExactly(ParseVersion(last), next, key);
      NewestExactly(last, vTags, next, key);
      FollowsExactly(last, vTags, next, key);
    }
  }

  lemma NewestExactly(last: string, tags: seq<string>, next: Version, key: Collation)
    requires AllProper(tags) && IsProper(next) && IsGreatest(last, tags, key)
    ensures IsNewest(next, tags, key) <==> Precedes(ParseVersion(last), next, key)
  {
    forall t | t in tags && Precedes(ParseVersion(last), next, key)
      ensures Precedes(ParseVersion(t), next, key)
    {
      CompareIsPrecedence(ParseVersion(t), ParseVersion(last), key);
    }
  }

  /** Greatest tags have the same numbers, so it does not matter which of them is followed. */
  lemma FollowsExactly(last: string, tags: seq<string>, next: Version, key: Collation)
    requires AllProper(tags) && IsProper(next) && IsGreatest(last, tags, key)
    ensures FollowsGreatest(next, tags, key) <==> IsOneStep(ParseVersion(last), next)
  {
    if FollowsGreatest(next, tags, key) {
      var t :| t in tags && IsGreatest(t, tags, key) && IsOneStep(ParseVersion(t), next);
      TiesAreFollowedAlike(ParseVersion(t), ParseVersion(last), next, key);
    }
  }

  lemma TiesAreFollowedAlike(a: Version, b: Version, next: Version, key: Collation)
    requires IsProper(a) && IsProper(b) && IsProper(next) && AtMost(a, b, key) && AtMost(b, a, key)
    ensures IsOneStep(a, next) <==> IsOneStep(b, next)
  {
    CompareIsPrecedence(a, b, key);
    CompareIsPrecedence(b, a, key);
  }

  lemma OneTag(tag: string, key: Collation)
    requires "v" <= tag && IsProper(ParseVersion(tag))
    ensures StartingWith([tag], "v") == [tag] && IsTagList([tag], [tag], key) && AllProper([tag])
  {
    assert Front([tag]) == [];
  }

  lemma GapIsNewer(tag: string, major: nat, next: nat, key: Collation)
    requires ParseVersion(tag) == MajorVersion(major) && next > major
    ensures AllProper([tag]) && IsNewest(MajorVersion(next), [tag], key)
  {
    CompareIsPrecedence(MajorVersion(major), MajorVersion(next), key);
  }

  /** A newer release that leaves out a major version is not marked. */
  lemma GapIsNotMarked(tag: string, nextVersion: string, major: nat, next: nat, key: Collation)
    requires "v" <= tag && next > major + 1
    requires ParseVersion(tag) == MajorVersion(major) && ParseVersion(nextVersion) == MajorVersion(next)
    ensures CompareVersions(LastOrDefault([tag]), nextVersion, key) != Val(-1)
  {
    assert LastOrDefault([tag]) == tag;
  }

  ghost predicate IsNewerYetUnmarked(tag: string, nextVersion: string, key: Collation) {
    var tags := [tag];
    && IsTagList(tags, tags, key) && StartingWith(tags, "v") == tags && AllProper(tags)
    && IsProper(ParseVersion(nextVersion)) && IsNewest(ParseVersion(nextVersion), tags, key)
    && CompareVersions(LastOrDefault(tags), nextVersion, key) != Val(-1)
  }

  lemma GapIsNewerYetUnmarked(key: Collation)
    ensures IsNewerYetUnmarked("v" + Core(['1'], ['0'], ['0']), Core(['3'], ['0'], ['0']), key)
  {
    var tag, nextVersion := "v" + Core(['1'], ['0'], ['0']), Core(['3'], ['0'], ['0']);
    OneDigit('0');
    OneDigit('1');
    OneDigit('3');
    MajorTag(['1'], ['0']);
    MajorTag(['3'], ['0']);
    OneTag(tag, key);
    GapIsNewer(tag, 1, 3, key);
    GapIsNotMarked(tag, nextVersion, 1, 3, key);
  }

  lemma WitnessTexts()
    ensures "v" + Core(['1'], ['0'], ['0']) == "v1.0.0" && Core(['3'], ['0'], ['0']) == "3.0.0"
  {
  }

  /** So a newer release is not always marked: with the one tag v1.0.0, version 3.0.0 is not. */
  lemma NewerIsNotAlwaysMarked(key: Collation)
    ensures IsNewerYetUnmarked("v1.0.0", "3.0.0", key)
  {
    WitnessTexts();
    GapIsNewerYetUnmarked(key);
  }
}
