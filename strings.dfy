/**
 * The operations on Rust string slices that the atlas parser and the driver
 * rely on: `trim`, `trim_end_matches`, `split_once`, `split`, `ends_with`.
 * Strings are sequences of Unicode scalar values.
 */
module Strings {

  /** Rust's `char::is_whitespace`: the Unicode White_Space property. */
  predicate IsWhitespace(c: char) {
    ('\t' <= c <= '\r') || c == ' ' || c == '\U{85}' || c == '\U{A0}' || c == '\U{1680}'
    || ('\U{2000}' <= c <= '\U{200A}') || c == '\U{2028}' || c == '\U{2029}'
    || c == '\U{202F}' || c == '\U{205F}' || c == '\U{3000}'
  }

  predicate AllWhitespace(s: string) {
    forall i :: 0 <= i < |s| ==> IsWhitespace(s[i])
  }

  /** `trim_start`: the suffix left after dropping leading whitespace. */
  function TrimStart(s: string): (r: string)
    ensures |r| <= |s|
  {
    if s != [] && IsWhitespace(s[0]) then TrimStart(s[1..]) else s
  }

  /** `trim_end`: the prefix left after dropping trailing whitespace. */
  function TrimEnd(s: string): (r: string)
    ensures |r| <= |s|
  {
    if s != [] && IsWhitespace(s[|s| - 1]) then TrimEnd(s[..|s| - 1]) else s
  }

  /** `trim`: whitespace removed from both ends. */
  function Trim(s: string): (r: string)
    ensures |r| <= |s|
    ensures s == [] ==> r == []
  {
    TrimEnd(TrimStart(s))
  }

  /** `trim_start` removes a whitespace prefix and stops at the first other character. */
  lemma {:induction false} TrimStartShape(s: string)
    ensures var r := TrimStart(s);
            r == s[|s| - |r|..] && AllWhitespace(s[..|s| - |r|]) &&
            (r != [] ==> !IsWhitespace(r[0]))
  {
    if s != [] && IsWhitespace(s[0]) {
      TrimStartShape(s[1..]);
      var r := TrimStart(s);
      assert s[..|s| - |r|] == [s[0]] + s[1..][..|s| - 1 - |r|];
    }
  }

  /** `trim_end` removes a whitespace suffix and stops at the last other character. */
  lemma {:induction false} TrimEndShape(s: string)
    ensures var r := TrimEnd(s);
            r == s[..|r|] && AllWhitespace(s[|r|..]) &&
            (r != [] ==> !IsWhitespace(r[|r| - 1]))
  {
    if s != [] && IsWhitespace(s[|s| - 1]) {
      TrimEndShape(s[..|s| - 1]);
      var r := TrimEnd(s);
      assert s[|r|..] == s[..|s| - 1][|r|..] + [s[|s| - 1]];
    }
  }

  /** The result of `trim` neither starts nor ends with whitespace. */
  lemma TrimShape(s: string)
    ensures var r := Trim(s);
            r != [] ==> !IsWhitespace(r[0]) && !IsWhitespace(r[|r| - 1])
  {
    TrimStartShape(s);
    TrimEndShape(TrimStart(s));
  }

  lemma {:induction false} TrimStartOfPadded(lead: string, core: string)
    requires AllWhitespace(lead)
    requires core != [] ==> !IsWhitespace(core[0])
    ensures TrimStart(lead + core) == core
  {
    if lead != [] {
      assert (lead + core)[1..] == lead[1..] + core;
      TrimStartOfPadded(lead[1..], core);
    }
  }

  lemma {:induction false} TrimEndOfPadded(core: string, trail: string)
    requires AllWhitespace(trail)
    requires core != [] ==> !IsWhitespace(core[|core| - 1])
    ensures TrimEnd(core + trail) == core
  {
    if trail != [] {
      var t := trail[..|trail| - 1];
      assert (core + trail)[..|core + trail| - 1] == core + t;
      TrimEndOfPadded(core, t);
    }
  }

  /**
   * `trim` is determined by the decomposition: whatever whitespace surrounds
   * a core that neither starts nor ends with whitespace is removed, and
   * nothing else.
   */
  lemma TrimOfPadded(lead: string, core: string, trail: string)
    requires AllWhitespace(lead) && AllWhitespace(trail)
    requires core != [] ==> !IsWhitespace(core[0]) && !IsWhitespace(core[|core| - 1])
    ensures Trim(lead + core + trail) == core
  {
    assert lead + core + trail == lead + (core + trail);
    if core == [] {
      assert core + trail == trail;
      TrimStartOfPadded(lead + trail, []);
      assert lead + trail + [] == lead + trail;
      assert AllWhitespace(lead + trail);
    } else {
      TrimStartOfPadded(lead, core + trail);
    }
    TrimEndOfPadded(core, trail);
  }

  /** `trim_end_matches(c)` for one character: every trailing `c` removed. */
  function TrimEndMatches(s: string, c: char): (r: string)
    ensures |r| <= |s|
    ensures r != [] ==> r[|r| - 1] != c
  {
    if s != [] && s[|s| - 1] == c then TrimEndMatches(s[..|s| - 1], c) else s
  }

  /** `trim_end_matches(c)` keeps a prefix, drops only `c`s, and leaves no trailing `c`. */
  lemma {:induction false} TrimEndMatchesShape(s: string, c: char)
    ensures var r := TrimEndMatches(s, c);
            r == s[..|r|] && (forall i :: |r| <= i < |s| ==> s[i] == c) &&
            (r != [] ==> r[|r| - 1] != c)
  {
    if s != [] && s[|s| - 1] == c {
      TrimEndMatchesShape(s[..|s| - 1], c);
    }
  }

  /** A string without `c` is left as it is by `trim_end_matches(c)`. */
  lemma TrimEndMatchesAbsent(s: string, c: char)
    requires c !in s
    ensures TrimEndMatches(s, c) == s
  {
  }

  /** The position of the first `c` in `s`. */
  function IndexOf(s: string, c: char): (i: nat)
    requires c in s
    ensures i < |s| && s[i] == c
  {
    if s[0] == c then 0 else 1 + IndexOf(s[1..], c)
  }

  /** No `c` comes before the one `IndexOf` finds. */
  lemma {:induction false} IndexOfFirst(s: string, c: char)
    requires c in s
    ensures c !in s[..IndexOf(s, c)]
  {
    if s[0] != c {
      IndexOfFirst(s[1..], c);
      assert s[..IndexOf(s, c)] == [s[0]] + s[1..][..IndexOf(s[1..], c)];
    }
  }

  /** `split_once(c)`: the text before the first `c` and the text after it. */
  function SplitOnce(s: string, c: char): (r: (string, string))
    requires c in s
    ensures |r.0| + 1 + |r.1| == |s| && s[|r.0|] == c
  {
    var i := IndexOf(s, c);
    (s[..i], s[i + 1..])
  }

  /** The two halves of `split_once(c)` rebuild the string around its first `c`. */
  lemma SplitOnceShape(s: string, c: char)
    requires c in s
    ensures SplitOnce(s, c).0 + [c] + SplitOnce(s, c).1 == s
    ensures c !in SplitOnce(s, c).0
  {
    var i := IndexOf(s, c);
    assert s == s[..i] + [c] + s[i + 1..];
    IndexOfFirst(s, c);
  }

  /** `split_once` is the only split at an occurrence of `c` whose left part has no `c`. */
  lemma SplitOnceUnique(s: string, c: char, before: string, after: string)
    requires before + [c] + after == s && c !in before
    ensures c in s && SplitOnce(s, c) == (before, after)
  {
    assert s[|before|] == c;
    SplitOnceShape(s, c);
    var r := SplitOnce(s, c);
    assert r.0 == s[..|before|] == before;
    assert r.1 == s[|before| + 1..] == after;
  }

  /** The pieces a list makes when joined with `c` between neighbours. */
  function Join(parts: seq<string>, c: char): string
  {
    if parts == [] then []
    else if |parts| == 1 then parts[0]
    else parts[0] + [c] + Join(parts[1..], c)
  }

  /**
   * `split(c)`: the maximal pieces between occurrences of `c`, so `n`
   * separators give `n + 1` pieces and the empty string gives one empty piece.
   */
  function Split(s: string, c: char): (parts: seq<string>)
    ensures |parts| == Occurrences(s, c) + 1
  {
    if s == [] then [[]]
    else
      var rest := Split(s[1..], c);
      if s[0] == c then [[]] + rest
      else [[s[0]] + rest[0]] + rest[1..]
  }

  /** How many times `c` occurs in `s`. */
  function Occurrences(s: string, c: char): nat {
    if s == [] then 0 else (if s[0] == c then 1 else 0) + Occurrences(s[1..], c)
  }

  /** No piece of `split(c)` holds a `c`. */
  lemma {:induction false} SplitPieces(s: string, c: char)
    ensures forall k :: 0 <= k < |Split(s, c)| ==> c !in Split(s, c)[k]
  {
    if s != [] {
      SplitPieces(s[1..], c);
      var rest := Split(s[1..], c);
      if s[0] != c {
        var parts := Split(s, c);
        assert forall k :: 1 <= k < |parts| ==> parts[k] == rest[k];
      }
    }
  }

  /** Joining the pieces of `split(c)` with `c` gives the string back. */
  lemma {:induction false} SplitThenJoin(s: string, c: char)
    ensures Join(Split(s, c), c) == s
  {
    if s != [] {
      var rest := Split(s[1..], c);
      SplitThenJoin(s[1..], c);
      if s[0] == c {
        assert Split(s, c) == [[]] + rest;
        JoinCons([], rest, c);
      } else {
        assert Split(s, c) == [[s[0]] + rest[0]] + rest[1..];
        JoinExtendFirst(s[0], rest, c);
      }
      assert s == [s[0]] + s[1..];
    }
  }

  /** Prefixing the first piece with a character prefixes the join with it. */
  lemma JoinExtendFirst(x: char, rest: seq<string>, c: char)
    requires rest != []
    ensures Join([[x] + rest[0]] + rest[1..], c) == [x] + Join(rest, c)
  {
    if |rest| > 1 {
      JoinCons([x] + rest[0], rest[1..], c);
      JoinCons(rest[0], rest[1..], c);
      assert rest == [rest[0]] + rest[1..];
    } else {
      assert [[x] + rest[0]] + rest[1..] == [[x] + rest[0]];
    }
  }

  /** Joining a piece in front of a non-empty list puts one separator between. */
  lemma JoinCons(piece: string, rest: seq<string>, c: char)
    requires rest != []
    ensures Join([piece] + rest, c) == piece + [c] + Join(rest, c)
  {
    assert ([piece] + rest)[1..] == rest;
  }

  lemma {:induction false} SplitAbsent(s: string, c: char)
    requires c !in s
    ensures Split(s, c) == [s]
  {
    if s != [] {
      SplitAbsent(s[1..], c);
      assert [s[0]] + s[1..] == s;
    }
  }

  /** `split` is the inverse of `Join` on pieces that hold no separator. */
  lemma {:induction false} SplitJoin(parts: seq<string>, c: char)
    requires |parts| >= 1
    requires forall k :: 0 <= k < |parts| ==> c !in parts[k]
    ensures Split(Join(parts, c), c) == parts
  {
    if |parts| == 1 {
      SplitAbsent(parts[0], c);
    } else {
      SplitJoin(parts[1..], c);
      SplitAfterPiece(parts[0], Join(parts[1..], c), c);
      assert parts == [parts[0]] + parts[1..];
    }
  }

  /** Splitting at a separator that follows a separator-free piece. */
  lemma {:induction false} SplitAfterPiece(piece: string, rest: string, c: char)
    requires c !in piece
    ensures Split(piece + [c] + rest, c) == [piece] + Split(rest, c)
  {
    if piece == [] {
      assert piece + [c] + rest == [c] + rest;
      assert ([c] + rest)[1..] == rest;
    } else {
      var s := piece + [c] + rest;
      assert s[1..] == piece[1..] + [c] + rest;
      SplitAfterPiece(piece[1..], rest, c);
      assert [piece[0]] + piece[1..] == piece;
    }
  }

  /** A string holding `c` splits into at least two pieces, the first being the text before the first `c`. */
  lemma SplitAtFirst(s: string, c: char)
    requires c in s
    ensures |Split(s, c)| >= 2 && Split(s, c)[0] == SplitOnce(s, c).0
  {
    SplitOnceShape(s, c);
    SplitAfterPiece(SplitOnce(s, c).0, SplitOnce(s, c).1, c);
  }

  predicate EndsWith(s: string, suffix: string)
    ensures EndsWith(s, suffix) <==> |suffix| <= |s| && s == s[..|s| - |suffix|] + suffix
  {
    |suffix| <= |s| && s[|s| - |suffix|..] == suffix
  }

  /** A suffix without `c` stays at the end of the last piece of `split(c)`. */
  lemma {:induction false} SplitLastEndsWith(s: string, suffix: string, c: char)
    requires EndsWith(s, suffix) && c !in suffix
    ensures EndsWith(Split(s, c)[|Split(s, c)| - 1], suffix)
  {
    if |s| == |suffix| {
      assert s == suffix;
      SplitAbsent(s, c);
    } else {
      var rest := Split(s[1..], c);
      assert s[1..][|s[1..]| - |suffix|..] == s[|s| - |suffix|..];
      SplitLastEndsWith(s[1..], suffix, c);
      if s[0] != c && |rest| == 1 {
        var last := [s[0]] + rest[0];
        assert last[|last| - |suffix|..] == rest[0][|rest[0]| - |suffix|..];
      }
    }
  }
}
