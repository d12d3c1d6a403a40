/** Shell-style pattern matching as `fnmatch.fnmatch` does it on a POSIX system (where
    `os.path.normcase` changes nothing, so matching is case-sensitive): `*` matches any
    run of characters, `?` any one character, `[...]` one character of a class and
    `[!...]` one character outside it; every other character matches itself. */
module Glob {
  import opened Wrappers
  import opened Strings

  datatype Token = Lit(c: char) | AnyChar | AnyString | Class(body: string)

  /** The index of the first `c` in `p` at or after `from`. */
  function IndexFrom(p: string, c: char, from: nat): (r: Option<nat>)
    ensures r.Some? ==> from <= r.value < |p| && p[r.value] == c
    ensures r.None? ==> forall k :: from <= k < |p| ==> p[k] != c
    decreases |p| - from
  {
    if from >= |p| then None
    else if p[from] == c then Some(from)
    else IndexFrom(p, c, from + 1)
  }

  /** Where a `[` at the start of `p` is closed: after an optional `!` and an optional
      leading `]`, the next `]`; `None` when the class is never closed. */
  function ClassEnd(p: string): (r: Option<nat>)
    requires |p| >= 1
    ensures r.Some? ==> 1 <= r.value < |p| && p[r.value] == ']'
  {
    var j := if 1 < |p| && p[1] == '!' then 2 else 1;
    var j' := if j < |p| && p[j] == ']' then j + 1 else j;
    IndexFrom(p, ']', j')
  }

  /** The pattern read as tokens; a `[` that is never closed stands for itself. */
  function Tokenize(p: string): seq<Token>
    decreases |p|
  {
    if p == [] then []
    else if p[0] == '*' then [AnyString] + Tokenize(p[1..])
    else if p[0] == '?' then [AnyChar] + Tokenize(p[1..])
    else if p[0] == '[' then
      match ClassEnd(p)
      case None => [Lit('[')] + Tokenize(p[1..])
      case Some(j) => [Class(p[1..j])] + Tokenize(p[j + 1..])
    else [Lit(p[0])] + Tokenize(p[1..])
  }

  /** The members of a class body: `a-z` is the range from `a` to `z` (empty when `z`
      comes first), and every other character stands for itself, `-` at either end
      included. */
  predicate InMembers(body: string, c: char)
    decreases |body|
  {
    if body == [] then false
    else if |body| >= 3 && body[1] == '-' then (body[0] <= c <= body[2]) || InMembers(body[3..], c)
    else body[0] == c || InMembers(body[1..], c)
  }

  /** `[body]` matches `c`; a leading `!` negates the class. */
  predicate InClass(body: string, c: char) {
    if |body| > 0 && body[0] == '!' then !InMembers(body[1..], c) else InMembers(body, c)
  }

  /** The tokens match the whole of `s`. */
  predicate Match(ts: seq<Token>, s: string)
    decreases |s|, |ts|
  {
    if ts == [] then s == []
    else match ts[0]
      case AnyString => Match(ts[1..], s) || (s != [] && Match(ts, s[1..]))
      case AnyChar => s != [] && Match(ts[1..], s[1..])
      case Lit(c) => s != [] && s[0] == c && Match(ts[1..], s[1..])
      case Class(body) => s != [] && InClass(body, s[0]) && Match(ts[1..], s[1..])
  }

  /** `fnmatch.fnmatch(name, pattern)`. */
  predicate Fnmatch(name: string, pattern: string) {
    Match(Tokenize(pattern), name)
  }

  /** A pattern without glob metacharacters. */
  predicate NoMeta(p: string) {
    '*' !in p && '?' !in p && '[' !in p
  }

  function Lits(p: string): (ts: seq<Token>)
    ensures |ts| == |p| && forall i :: 0 <= i < |p| ==> ts[i] == Lit(p[i])
  {
    seq(|p|, i requires 0 <= i < |p| => Lit(p[i]))
  }

  /** A pattern without metacharacters is read as its characters, literally. */
  lemma {:induction false} TokenizeNoMeta(p: string, rest: string)
    requires NoMeta(p)
    ensures Tokenize(p + rest) == Lits(p) + Tokenize(rest)
    decreases |p|
  {
    if p != [] {
      assert p[0] in p;
      assert (p + rest)[0] == p[0];
      assert (p + rest)[1..] == p[1..] + rest;
      assert Tokenize(p + rest) == [Lit(p[0])] + Tokenize(p[1..] + rest);
      assert NoMeta(p[1..]) by { assert forall c :: c in p[1..] ==> c in p; }
      TokenizeNoMeta(p[1..], rest);
      assert Lits(p) == [Lit(p[0])] + Lits(p[1..]);
    } else {
      assert p + rest == rest && Lits(p) == [];
    }
  }

  /** `*` matches every string. */
  lemma {:induction false} StarMatchesAll(s: string)
    ensures Match([AnyString], s)
    decreases |s|
  {
    assert [AnyString][1..] == [];
    if s != [] {
      StarMatchesAll(s[1..]);
    }
  }

  /** `*` followed by `ts` matches `s` exactly when `ts` matches some suffix of `s`. */
  lemma {:induction false} LeadingStar(ts: seq<Token>, s: string)
    ensures Match([AnyString] + ts, s) <==> exists k :: 0 <= k <= |s| && Match(ts, s[k..])
    decreases |s|
  {
    assert ([AnyString] + ts)[1..] == ts;
    assert s[0..] == s;
    if s != [] {
      LeadingStar(ts, s[1..]);
      if exists k :: 0 <= k <= |s| && Match(ts, s[k..]) {
        var k :| 0 <= k <= |s| && Match(ts, s[k..]);
        if k > 0 {
          assert s[1..][k - 1..] == s[k..];
        }
      }
      if exists k :: 0 <= k <= |s[1..]| && Match(ts, s[1..][k..]) {
        var k :| 0 <= k <= |s[1..]| && Match(ts, s[1..][k..]);
        assert s[1..][k..] == s[k + 1..];
      }
    }
  }

  /** Literal tokens followed by `*` match exactly the strings that start with them. */
  lemma {:induction false} LiteralsThenStar(p: string, s: string)
    ensures Match(Lits(p) + [AnyString], s) <==> StartsWith(s, p)
    decreases |p|
  {
    if p == [] {
      assert Lits(p) + [AnyString] == [AnyString];
      StarMatchesAll(s);
    } else {
      var ts := Lits(p) + [AnyString];
      assert ts[0] == Lit(p[0]);
      assert ts[1..] == Lits(p[1..]) + [AnyString];
      if s != [] {
        LiteralsThenStar(p[1..], s[1..]);
        if StartsWith(s, p) {
          assert s[1..][..|p| - 1] == s[..|p|][1..];
        }
        if s[0] == p[0] && StartsWith(s[1..], p[1..]) {
          assert s[..|p|] == [s[0]] + s[1..][..|p| - 1];
          assert p == [p[0]] + p[1..];
        }
      }
    }
  }

  /** `*p*` for a pattern `p` without metacharacters matches exactly the strings that
      contain `p`. */
  lemma SubstringPattern(p: string, s: string)
    requires NoMeta(p)
    ensures Fnmatch(s, "*" + p + "*") <==> IsSubstring(p, s)
  {
    TokenizeNoMeta(p, "*");
    assert ("*" + p + "*")[0] == '*' && ("*" + p + "*")[1..] == p + "*";
    assert Tokenize("*") == [AnyString];
    var ts := Lits(p) + [AnyString];
    assert Tokenize("*" + p + "*") == [AnyString] + ts;
    LeadingStar(ts, s);
    forall k | 0 <= k <= |s| ensures Match(ts, s[k..]) <==> StartsWith(s[k..], p) {
      LiteralsThenStar(p, s[k..]);
    }
  }

  /** A pattern without metacharacters matches only itself. */
  lemma LiteralPattern(p: string, s: string)
    requires NoMeta(p)
    ensures Fnmatch(s, p) <==> s == p
  {
    TokenizeNoMeta(p, "");
    assert p + "" == p;
    assert Tokenize("") == [];
    assert Lits(p) + [] == Lits(p);
    LiteralsExact(p, s);
  }

  /** Literal tokens match exactly the string they spell. */
  lemma {:induction false} LiteralsExact(p: string, s: string)
    ensures Match(Lits(p), s) <==> s == p
    decreases |p|
  {
    if p != [] {
      assert Lits(p)[1..] == Lits(p[1..]);
      if s != [] {
        LiteralsExact(p[1..], s[1..]);
        assert s == [s[0]] + s[1..] && p == [p[0]] + p[1..];
      }
    }
  }
}
