/** The string operations of Python's `str` that the directory resolution and the
    pattern filter rely on: `split`, `startswith` and the substring test `p in s`. */
module Strings {

  /** `s.startswith(prefix)`. */
  predicate StartsWith(s: string, prefix: string) {
    |prefix| <= |s| && s[..|prefix|] == prefix
  }

  /** `p in s` for strings: `p` occurs contiguously somewhere in `s`. */
  predicate IsSubstring(p: string, s: string) {
    exists k :: 0 <= k <= |s| && StartsWith(s[k..], p)
  }

  /** `s.split(sep)` with an explicit one-character separator: every occurrence of
      `sep` cuts, empty pieces are kept, and the empty string gives one empty piece. */
  function Split(s: string, sep: char): (parts: seq<string>)
    ensures |parts| >= 1
    ensures forall i :: 0 <= i < |parts| ==> sep !in parts[i]
    decreases |s|
  {
    if s == [] then [""]
    else
      var rest := Split(s[1..], sep);
      if s[0] == sep then [""] + rest
      else [[s[0]] + rest[0]] + rest[1..]
  }

  /** `sep.join(parts)`, the inverse of `Split`. */
  function Join(parts: seq<string>, sep: char): string
    decreases |parts|
  {
    if parts == [] then ""
    else if |parts| == 1 then parts[0]
    else parts[0] + [sep] + Join(parts[1..], sep)
  }

  /** Joining the pieces of a split gives back the original string. */
  lemma {:induction false} JoinSplit(s: string, sep: char)
    ensures Join(Split(s, sep), sep) == s
    decreases |s|
  {
    if s != [] {
      JoinSplit(s[1..], sep);
      var rest := Split(s[1..], sep);
      if s[0] == sep {
        assert Split(s, sep) == [""] + rest;
        assert ([""] + rest)[1..] == rest;
      } else {
        var parts := Split(s, sep);
        assert parts == [[s[0]] + rest[0]] + rest[1..];
        if |rest| == 1 {
          assert parts == [[s[0]] + rest[0]];
        } else {
          assert parts[1..] == rest[1..];
          assert Join(rest, sep) == rest[0] + [sep] + Join(rest[1..], sep);
        }
      }
    }
  }

  /** Splitting a join of separator-free pieces gives back the pieces. */
  lemma {:induction false} SplitJoin(parts: seq<string>, sep: char)
    requires |parts| >= 1
    requires forall i :: 0 <= i < |parts| ==> sep !in parts[i]
    ensures Split(Join(parts, sep), sep) == parts
    decreases |parts|, |parts[0]|
  {
    var p0 := parts[0];
    if p0 == [] {
      if |parts| > 1 {
        SplitJoin(parts[1..], sep);
        var s := Join(parts, sep);
        assert s == [sep] + Join(parts[1..], sep);
        assert s[1..] == Join(parts[1..], sep);
        assert parts == [""] + parts[1..];
      }
    } else {
      var tail := [p0[1..]] + parts[1..];
      assert tail[1..] == parts[1..];
      forall i | 0 <= i < |tail| ensures sep !in tail[i] {
        if i == 0 { assert forall c :: c in p0[1..] ==> c in p0; } else { assert tail[i] == parts[i]; }
      }
      SplitJoin(tail, sep);
      var s := Join(parts, sep);
      if |parts| == 1 {
        assert s == p0;
        assert Join(tail, sep) == p0[1..];
      } else {
        assert s == p0 + [sep] + Join(parts[1..], sep);
        assert Join(tail, sep) == p0[1..] + [sep] + Join(parts[1..], sep);
      }
      assert s[0] == p0[0] && s[1..] == Join(tail, sep);
      assert s[0] != sep;
      assert [p0[0]] + p0[1..] == p0;
      assert [[p0[0]] + p0[1..]] + parts[1..] == parts;
    }
  }
}
