/** Directory resolution (listmycmds.py lines 22-59 and 133-134): which PATH entries
    are "my" directories, and the order-preserving, duplicate-free list of them.
    The environment is passed in: `None` stands for a variable that is not set. */
module Resolver {
  import opened Wrappers
  import opened Strings

  /** `a` is obtained from `b` by deleting elements: order kept, nothing new. */
  predicate IsSubsequence(a: seq<string>, b: seq<string>)
    decreases |b|
  {
    if a == [] then true
    else if b == [] then false
    else (a[0] == b[0] && IsSubsequence(a[1..], b[1..])) || IsSubsequence(a, b[1..])
  }

  predicate NoDuplicates(s: seq<string>) {
    forall i, j :: 0 <= i < j < |s| ==> s[i] != s[j]
  }

  /** A Python list comprehension `[d for d in s if keep(d)]`. */
  function Filter(s: seq<string>, keep: string -> bool): (r: seq<string>)
    ensures forall x :: x in r <==> x in s && keep(x)
    ensures forall x :: multiset(r)[x] == if keep(x) then multiset(s)[x] else 0
    ensures IsSubsequence(r, s)
    decreases |s|
  {
    if s == [] then []
    else
      var rest := Filter(s[1..], keep);
      assert s == [s[0]] + s[1..];
      if keep(s[0]) then
        assert ([s[0]] + rest)[1..] == rest;
        [s[0]] + rest
      else rest
  }

  /** The entries of PATH, split on ':'. */
  function PathEntries(path: string): seq<string> {
    Split(path, ':')
  }

  /** A directory that begins with HOME; never one when HOME is unset. */
  predicate HomeRooted(d: string, home: Option<string>) {
    home.Some? && StartsWith(d, home.value)
  }

  /** A directory named verbatim in MYCMDSPATH; never one when MYCMDSPATH is unset. */
  predicate Listed(d: string, mycmdspath: Option<string>) {
    mycmdspath.Some? && d in Split(mycmdspath.value, ':')
  }

  /** `dirs_starting_with_HOME()`: the PATH entries that start with HOME, in PATH order
      and with their repetitions; empty when PATH or HOME is unset. */
  function DirsStartingWithHome(path: Option<string>, home: Option<string>): (r: seq<string>)
    ensures path.None? || home.None? ==> r == []
    ensures path.Some? ==>
      && IsSubsequence(r, PathEntries(path.value))
      && (forall d :: d in r <==> d in PathEntries(path.value) && HomeRooted(d, home))
      && (forall d :: multiset(r)[d] == if HomeRooted(d, home) then multiset(PathEntries(path.value))[d] else 0)
    ensures path.Some? ==> forall a, b :: a in r && b in r && IndexOf(r, a) < IndexOf(r, b) ==>
      IndexOf(PathEntries(path.value), a) < IndexOf(PathEntries(path.value), b)
  {
    if path.None? || home.None? then []
    else
      var keep := d => StartsWith(d, home.value);
      FilterKeepsOrder(PathEntries(path.value), keep);
      Filter(PathEntries(path.value), keep)
  }

  /** `dirs_from_MYCMDSPATH()`: the PATH entries equal to some ':'-separated entry of
      MYCMDSPATH, in PATH order and with their repetitions; empty when either is unset. */
  function DirsFromMyCmdsPath(path: Option<string>, mycmdspath: Option<string>): (r: seq<string>)
    ensures path.None? || mycmdspath.None? ==> r == []
    ensures path.Some? ==>
      && IsSubsequence(r, PathEntries(path.value))
      && (forall d :: d in r <==> d in PathEntries(path.value) && Listed(d, mycmdspath))
      && (forall d :: multiset(r)[d] == if Listed(d, mycmdspath) then multiset(PathEntries(path.value))[d] else 0)
    ensures path.Some? ==> forall a, b :: a in r && b in r && IndexOf(r, a) < IndexOf(r, b) ==>
      IndexOf(PathEntries(path.value), a) < IndexOf(PathEntries(path.value), b)
  {
    if path.None? || mycmdspath.None? then []
    else
      var listed := Split(mycmdspath.value, ':');
      var keep := d => d in listed;
      FilterKeepsOrder(PathEntries(path.value), keep);
      Filter(PathEntries(path.value), keep)
  }

  /** What `combine_new_with_master_list(new, master)` leaves in `master`: each element of
      `new`, from left to right, is appended unless the list already holds it. */
  function Combined(master: seq<string>, new_: seq<string>): seq<string>
    decreases |new_|
  {
    if new_ == [] then master
    else Combined(if new_[0] in master then master else master + [new_[0]], new_[1..])
  }

  /** The old contents of `master` are an unchanged prefix of the result. */
  lemma {:induction false} CombinedPrefix(master: seq<string>, new_: seq<string>)
    ensures |Combined(master, new_)| >= |master|
    ensures Combined(master, new_)[..|master|] == master
    decreases |new_|
  {
    if new_ != [] {
      var m := if new_[0] in master then master else master + [new_[0]];
      CombinedPrefix(m, new_[1..]);
      assert m[..|master|] == master;
      assert Combined(master, new_)[..|master|] == Combined(m, new_[1..])[..|m|][..|master|];
    }
  }

  /** The result holds exactly the elements of `master` and of `new`. */
  lemma {:induction false} CombinedContents(master: seq<string>, new_: seq<string>)
    ensures forall x :: x in Combined(master, new_) <==> x in master || x in new_
    decreases |new_|
  {
    if new_ != [] {
      var m := if new_[0] in master then master else master + [new_[0]];
      CombinedContents(m, new_[1..]);
      assert new_ == [new_[0]] + new_[1..];
    }
  }

  lemma NoDuplicatesCons(x: string, t: seq<string>)
    requires NoDuplicates(t) && x !in t
    ensures NoDuplicates([x] + t)
  {
    var s := [x] + t;
    forall i, j | 0 <= i < j < |s| ensures s[i] != s[j] {
      assert s[j] == t[j - 1];
      if i > 0 {
        assert s[i] == t[i - 1];
      }
    }
  }

  /** The appended part never repeats an element and never repeats one of `master`. */
  lemma {:induction false} CombinedAppendsFresh(master: seq<string>, new_: seq<string>)
    ensures |Combined(master, new_)| >= |master|
    ensures NoDuplicates(Combined(master, new_)[|master|..])
    ensures forall i :: |master| <= i < |Combined(master, new_)| ==> Combined(master, new_)[i] !in master
    decreases |new_|
  {
    if new_ == [] {
      assert Combined(master, new_)[|master|..] == [];
    } else {
      var x := new_[0];
      var m := if x in master then master else master + [x];
      var r := Combined(master, new_);
      assert r == Combined(m, new_[1..]);
      CombinedAppendsFresh(m, new_[1..]);
      if x !in master {
        CombinedPrefix(m, new_[1..]);
        var later := r[|m|..];
        assert r[..|m|] == m;
        assert r[|master|] == x;
        assert r[|master|..] == [x] + later;
        assert forall i :: 0 <= i < |later| ==> later[i] == r[|m| + i];
        assert forall i :: 0 <= i < |later| ==> later[i] !in m;
        assert x !in later;
        NoDuplicatesCons(x, later);
      }
    }
  }

  /** Combining into a duplicate-free list keeps it duplicate-free. */
  lemma CombinedNoDuplicates(master: seq<string>, new_: seq<string>)
    requires NoDuplicates(master)
    ensures NoDuplicates(Combined(master, new_))
  {
    CombinedAppendsFresh(master, new_);
    CombinedPrefix(master, new_);
    var r := Combined(master, new_);
    forall i, j | 0 <= i < j < |r| ensures r[i] != r[j] {
      if j < |master| {
        assert r[i] == master[i] && r[j] == master[j];
      } else if i < |master| {
        assert r[i] == master[i];
      } else {
        assert r[i] == r[|master|..][i - |master|] && r[j] == r[|master|..][j - |master|];
      }
    }
  }

  /** The position of the first occurrence of `x` in `s`. */
  function IndexOf(s: seq<string>, x: string): (k: nat)
    requires x in s
    ensures k < |s| && s[k] == x && x !in s[..k]
  {
    if s[0] == x then 0
    else
      var k := IndexOf(s[1..], x);
      assert s[..k + 1] == [s[0]] + s[1..][..k];
      k + 1
  }

  /** Filtering keeps the order in which the kept elements first occur. */
  lemma {:induction false} FilterKeepsOrder(s: seq<string>, keep: string -> bool)
    ensures forall a, b ::
      a in Filter(s, keep) && b in Filter(s, keep) && IndexOf(Filter(s, keep), a) < IndexOf(Filter(s, keep), b) ==>
      IndexOf(s, a) < IndexOf(s, b)
    decreases |s|
  {
    if s != [] {
      var r := Filter(s, keep);
      var t := Filter(s[1..], keep);
      FilterKeepsOrder(s[1..], keep);
      forall a, b | a in r && b in r && IndexOf(r, a) < IndexOf(r, b)
        ensures IndexOf(s, a) < IndexOf(s, b)
      {
        if keep(s[0]) {
          assert r == [s[0]] + t && r[1..] == t;
          if a != s[0] {
            assert b != s[0];
            IndexOfBehindHead(r, a);
            IndexOfBehindHead(r, b);
            IndexOfBehindHead(s, a);
            IndexOfBehindHead(s, b);
          }
        } else {
          assert r == t && a != s[0] && b != s[0];
          IndexOfBehindHead(s, a);
          IndexOfBehindHead(s, b);
        }
      }
    }
  }

  /** The first occurrence of `y` after a different head is one further on. */
  lemma IndexOfBehindHead(s: seq<string>, y: string)
    requires |s| >= 1 && y in s[1..] && y != s[0]
    ensures y in s && IndexOf(s, y) == IndexOf(s[1..], y) + 1
  {
  }

  /** The appended elements come from `new` in the order of their first occurrence there. */
  lemma {:induction false} CombinedFirstOccurrenceOrder(master: seq<string>, new_: seq<string>)
    ensures |Combined(master, new_)| >= |master|
    ensures forall i :: |master| <= i < |Combined(master, new_)| ==> Combined(master, new_)[i] in new_
    ensures forall i, j :: |master| <= i < j < |Combined(master, new_)| ==>
      IndexOf(new_, Combined(master, new_)[i]) < IndexOf(new_, Combined(master, new_)[j])
    decreases |new_|
  {
    if new_ != [] {
      var x := new_[0];
      var tail := new_[1..];
      var m := if x in master then master else master + [x];
      var r := Combined(master, new_);
      assert r == Combined(m, tail);
      CombinedFirstOccurrenceOrder(m, tail);
      CombinedAppendsFresh(m, tail);
      CombinedPrefix(m, tail);
      assert x in m;
      forall i | |m| <= i < |r|
        ensures r[i] in new_ && IndexOf(new_, r[i]) == IndexOf(tail, r[i]) + 1
      {
        assert r[i] != x;
        IndexOfBehindHead(new_, r[i]);
      }
      if x !in master {
        assert r[|master|] == m[|master|] == x;
        assert IndexOf(new_, x) == 0;
      }
      forall i, j | |master| <= i < j < |r| ensures IndexOf(new_, r[i]) < IndexOf(new_, r[j]) {
        if i < |m| {
          assert r[i] == x;
        }
      }
    }
  }

  /** Combining elements that are all present already changes nothing. */
  lemma {:induction false} CombinedNothingNew(master: seq<string>, new_: seq<string>)
    requires forall x :: x in new_ ==> x in master
    ensures Combined(master, new_) == master
    decreases |new_|
  {
    if new_ != [] {
      assert new_[0] in master;
      assert forall x :: x in new_[1..] ==> x in new_;
      CombinedNothingNew(master, new_[1..]);
    }
  }

  /** Combining the same `new` a second time changes nothing. */
  lemma CombinedIdempotent(master: seq<string>, new_: seq<string>)
    ensures Combined(Combined(master, new_), new_) == Combined(master, new_)
  {
    CombinedContents(master, new_);
    CombinedNothingNew(Combined(master, new_), new_);
  }

  /** A Python list: the object that `combine_new_with_master_list` appends to in place. */
  class StrList {
    var items: seq<string>

    constructor (items: seq<string>)
      ensures this.items == items
    {
      this.items := items;
    }

    /** `list.append(x)`. */
    method Append(x: string)
      modifies this
      ensures items == old(items) + [x]
    {
      items := items + [x];
    }
  }

  /** `combine_new_with_master_list(new, master)`: appends the elements of `new` that
      `master` lacks to `master` itself, and returns that same list. */
  method CombineNewWithMasterList(new_: seq<string>, master: StrList) returns (res: StrList)
    modifies master
    ensures res == master
    ensures master.items == Combined(old(master.items), new_)
  {
    res := master;
    for i := 0 to |new_|
      invariant res == master
      invariant Combined(res.items, new_[i..]) == Combined(old(master.items), new_)
    {
      var el := new_[i];
      assert new_[i..][1..] == new_[i + 1..];
      if el !in res.items {
        res.Append(el);
      }
    }
    assert new_[|new_|..] == [];
  }

  /** The directory list built by lines 133-134: first the HOME-rooted PATH entries, then
      the PATH entries listed in MYCMDSPATH, each directory once. */
  function ResolvedDirs(path: Option<string>, home: Option<string>, mycmdspath: Option<string>): seq<string> {
    Combined(Combined([], DirsStartingWithHome(path, home)), DirsFromMyCmdsPath(path, mycmdspath))
  }

  /** Lines 133-134: `dirs = combine(dirs_starting_with_HOME(), [])` followed by
      `dirs = combine(dirs_from_MYCMDSPATH(), dirs)`. */
  method ResolveDirs(path: Option<string>, home: Option<string>, mycmdspath: Option<string>) returns (dirs: StrList)
    ensures fresh(dirs)
    ensures dirs.items == ResolvedDirs(path, home, mycmdspath)
  {
    var empty := new StrList([]);
    dirs := CombineNewWithMasterList(DirsStartingWithHome(path, home), empty);
    dirs := CombineNewWithMasterList(DirsFromMyCmdsPath(path, mycmdspath), dirs);
  }

  /** The resolved list holds exactly the PATH entries that are HOME-rooted or listed in
      MYCMDSPATH, and each of them only once. */
  lemma ResolvedDirsExactly(path: Option<string>, home: Option<string>, mycmdspath: Option<string>)
    ensures NoDuplicates(ResolvedDirs(path, home, mycmdspath))
    ensures path.None? ==> ResolvedDirs(path, home, mycmdspath) == []
    ensures path.Some? ==> forall d :: d in ResolvedDirs(path, home, mycmdspath) <==>
      d in PathEntries(path.value) && (HomeRooted(d, home) || Listed(d, mycmdspath))
  {
    var h := DirsStartingWithHome(path, home);
    var l := DirsFromMyCmdsPath(path, mycmdspath);
    CombinedNoDuplicates([], h);
    CombinedNoDuplicates(Combined([], h), l);
    CombinedContents([], h);
    CombinedContents(Combined([], h), l);
  }

  /** The resolved list is the HOME-rooted directories followed by the others: a
      directory is HOME-rooted exactly when it lies within the result of the first combine. */
  lemma ResolvedDirsSplit(path: Option<string>, home: Option<string>, mycmdspath: Option<string>)
    ensures |Combined([], DirsStartingWithHome(path, home))| <= |ResolvedDirs(path, home, mycmdspath)|
    ensures ResolvedDirs(path, home, mycmdspath)[..|Combined([], DirsStartingWithHome(path, home))|] ==
      Combined([], DirsStartingWithHome(path, home))
    ensures forall i :: 0 <= i < |ResolvedDirs(path, home, mycmdspath)| ==>
      (HomeRooted(ResolvedDirs(path, home, mycmdspath)[i], home) <==> i < |Combined([], DirsStartingWithHome(path, home))|)
  {
    var h := DirsStartingWithHome(path, home);
    var l := DirsFromMyCmdsPath(path, mycmdspath);
    var first := Combined([], h);
    var r := ResolvedDirs(path, home, mycmdspath);
    CombinedContents([], h);
    CombinedPrefix(first, l);
    CombinedContents(first, l);
    CombinedAppendsFresh(first, l);
    forall i | 0 <= i < |r| ensures HomeRooted(r[i], home) <==> i < |first| {
      if i < |first| {
        assert r[i] == first[i];
        assert r[i] in h;
      } else {
        assert r[i] !in first;
        assert r[i] in l && r[i] !in h;
      }
    }
  }

  /** Every HOME-rooted directory of the resolved list comes before every other one. */
  lemma ResolvedDirsHomeFirst(path: Option<string>, home: Option<string>, mycmdspath: Option<string>)
    ensures forall i, j ::
      (0 <= i < j < |ResolvedDirs(path, home, mycmdspath)| && HomeRooted(ResolvedDirs(path, home, mycmdspath)[j], home)) ==>
      HomeRooted(ResolvedDirs(path, home, mycmdspath)[i], home)
  {
    ResolvedDirsSplit(path, home, mycmdspath);
  }

  /** If `new` lists its elements in the order of their first occurrence in `s`, the
      elements appended by combining keep that order. */
  lemma CombinedKeepsOrder(master: seq<string>, new_: seq<string>, s: seq<string>)
    requires forall x :: x in new_ ==> x in s
    requires forall a, b :: a in new_ && b in new_ && IndexOf(new_, a) < IndexOf(new_, b) ==> IndexOf(s, a) < IndexOf(s, b)
    ensures forall i :: |master| <= i < |Combined(master, new_)| ==> Combined(master, new_)[i] in s
    ensures forall i, j :: |master| <= i < j < |Combined(master, new_)| ==>
      IndexOf(s, Combined(master, new_)[i]) < IndexOf(s, Combined(master, new_)[j])
  {
    CombinedFirstOccurrenceOrder(master, new_);
  }

  /** Within each of the two groups, the resolved directories keep the order in which
      they first occur in PATH. */
  lemma ResolvedDirsPathOrder(path: Option<string>, home: Option<string>, mycmdspath: Option<string>)
    ensures path.Some? ==> forall i :: 0 <= i < |ResolvedDirs(path, home, mycmdspath)| ==>
      ResolvedDirs(path, home, mycmdspath)[i] in PathEntries(path.value)
    ensures path.Some? ==> forall i, j ::
      0 <= i < j < |ResolvedDirs(path, home, mycmdspath)| &&
      (HomeRooted(ResolvedDirs(path, home, mycmdspath)[i], home) <==> HomeRooted(ResolvedDirs(path, home, mycmdspath)[j], home)) ==>
      IndexOf(PathEntries(path.value), ResolvedDirs(path, home, mycmdspath)[i]) <
      IndexOf(PathEntries(path.value), ResolvedDirs(path, home, mycmdspath)[j])
  {
    if path.Some? {
      var entries := PathEntries(path.value);
      var h := DirsStartingWithHome(path, home);
      var l := DirsFromMyCmdsPath(path, mycmdspath);
      var first := Combined([], h);
      var r := ResolvedDirs(path, home, mycmdspath);
      ResolvedDirsSplit(path, home, mycmdspath);
      CombinedKeepsOrder([], h, entries);
      CombinedKeepsOrder(first, l, entries);
      forall i | 0 <= i < |first| ensures r[i] == first[i] {
      }
    }
  }
}
