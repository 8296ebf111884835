/**
 * The .NET string operations the tool relies on, on `seq<char>`:
 * ordinal case-insensitive comparison (ASCII case folding), `Trim`,
 * `TrimStart`/`TrimEnd` with a character class, `Split` on one separator,
 * `IndexOf`, and `Replace` of one character.
 */
module Text {

  /** `Char.IsWhiteSpace`: the Unicode space separators, line and paragraph
      separators, and the control characters U+0009-U+000D and U+0085. */
  predicate IsWhiteSpace(c: char)
  {
    || c == ' '
    || ('\t' <= c <= '\r')
    || c == '\U{0085}' || c == '\U{00A0}' || c == '\U{1680}'
    || ('\U{2000}' <= c <= '\U{200A}')
    || c == '\U{2028}' || c == '\U{2029}' || c == '\U{202F}'
    || c == '\U{205F}' || c == '\U{3000}'
  }

  predicate IsQuote(c: char) { c == '"' }

  predicate IsBackslash(c: char) { c == '\\' }

  predicate IsColon(c: char) { c == ':' }

  // ---------------------------------------------------------------------
  // Case folding (StringComparison.OrdinalIgnoreCase, ASCII letters only)
  // ---------------------------------------------------------------------

  function ToLowerChar(c: char): (d: char)
    ensures 'A' <= c <= 'Z' ==> d as int == c as int + 32
    ensures !('A' <= c <= 'Z') ==> d == c
  {
    if 'A' <= c <= 'Z' then (c as int + 32) as char else c
  }

  function ToLower(s: string): (r: string)
    ensures |r| == |s|
    ensures forall i :: 0 <= i < |s| ==> r[i] == ToLowerChar(s[i])
  {
    seq(|s|, i requires 0 <= i < |s| => ToLowerChar(s[i]))
  }

  predicate EqualsIgnoreCase(a: string, b: string)
  {
    ToLower(a) == ToLower(b)
  }

  /** Two strings are equal ignoring case exactly when they have the same
      length and agree character by character after folding. */
  lemma EqualsIgnoreCasePointwise(a: string, b: string)
    ensures EqualsIgnoreCase(a, b) <==>
              |a| == |b| && forall i :: 0 <= i < |a| ==> ToLowerChar(a[i]) == ToLowerChar(b[i])
  {
    if |a| == |b| && forall i :: 0 <= i < |a| ==> ToLowerChar(a[i]) == ToLowerChar(b[i]) {
      assert forall i :: 0 <= i < |a| ==> ToLower(a)[i] == ToLower(b)[i];
    }
  }

  /** `s.StartsWith(prefix, StringComparison.OrdinalIgnoreCase)`. */
  predicate StartsWithIgnoreCase(s: string, prefix: string)
  {
    |prefix| <= |s| && EqualsIgnoreCase(s[..|prefix|], prefix)
  }

  /** `s.IndexOf(sub, StringComparison.OrdinalIgnoreCase) >= 0`; the empty
      string occurs at index 0 of every string. */
  predicate ContainsIgnoreCase(s: string, sub: string)
    ensures sub == [] ==> ContainsIgnoreCase(s, sub)
    ensures ContainsIgnoreCase(s, sub) ==> |sub| <= |s|
  {
    assert sub == [] ==> OccursAtIgnoreCase(s, sub, 0);
    exists i | 0 <= i <= |s| - |sub| :: OccursAtIgnoreCase(s, sub, i)
  }

  predicate OccursAtIgnoreCase(s: string, sub: string, i: int)
  {
    0 <= i <= |s| - |sub| && EqualsIgnoreCase(s[i..i + |sub|], sub)
  }

  lemma {:induction false} ToLowerSlice(s: string, i: nat, j: nat)
    requires i <= j <= |s|
    ensures ToLower(s[i..j]) == ToLower(s)[i..j]
  {
    assert forall k :: 0 <= k < j - i ==> ToLower(s[i..j])[k] == ToLower(s)[i..j][k];
  }

  /** Whether a case-insensitive prefix test holds depends only on the
      case-folded strings. */
  lemma {:induction false} StartsWithIgnoreCaseFolded(s: string, prefix: string)
    ensures StartsWithIgnoreCase(s, prefix) <==>
              |prefix| <= |s| && ToLower(s)[..|prefix|] == ToLower(prefix)
  {
    if |prefix| <= |s| {
      ToLowerSlice(s, 0, |prefix|);
    }
  }

  /** The prefix test, character by character: `prefix` is no longer than
      `s` and agrees with its start after folding. */
  lemma StartsWithIgnoreCasePointwise(s: string, prefix: string)
    ensures StartsWithIgnoreCase(s, prefix) <==>
              |prefix| <= |s| && forall i :: 0 <= i < |prefix| ==> ToLowerChar(s[i]) == ToLowerChar(prefix[i])
  {
    if |prefix| <= |s| {
      EqualsIgnoreCasePointwise(s[..|prefix|], prefix);
    }
  }

  // ---------------------------------------------------------------------
  // Trimming
  // ---------------------------------------------------------------------

  /** The length of the longest prefix of `s` whose characters satisfy `drop`. */
  function LeadingRun(s: string, drop: char -> bool): (n: nat)
    ensures n <= |s|
    ensures forall i :: 0 <= i < n ==> drop(s[i])
    ensures n < |s| ==> !drop(s[n])
  {
    if s != [] && drop(s[0]) then 1 + LeadingRun(s[1..], drop) else 0
  }

  /** The length of the longest suffix of `s` whose characters satisfy `drop`. */
  function TrailingRun(s: string, drop: char -> bool): (n: nat)
    ensures n <= |s|
    ensures forall i :: |s| - n <= i < |s| ==> drop(s[i])
    ensures n < |s| ==> !drop(s[|s| - n - 1])
  {
    if s != [] && drop(s[|s| - 1]) then 1 + TrailingRun(s[..|s| - 1], drop) else 0
  }

  /** `TrimStart`: drops the longest prefix whose characters satisfy `drop`. */
  function TrimStart(s: string, drop: char -> bool): (r: string)
    ensures |r| <= |s| && r == s[|s| - |r|..]
    ensures forall i :: 0 <= i < |s| - |r| ==> drop(s[i])
    ensures r != [] ==> !drop(r[0])
  {
    s[LeadingRun(s, drop)..]
  }

  /** `TrimEnd`: drops the longest suffix whose characters satisfy `drop`. */
  function TrimEnd(s: string, drop: char -> bool): (r: string)
    ensures |r| <= |s| && r == s[..|r|]
    ensures forall i :: |r| <= i < |s| ==> drop(s[i])
    ensures r != [] ==> !drop(r[|r| - 1])
  {
    s[..|s| - TrailingRun(s, drop)]
  }

  /** `Trim`: both ends; what is left is the slice between the leading run
      and the trailing run of what remains. */
  function TrimBoth(s: string, drop: char -> bool): (r: string)
    ensures exists a, b :: TrimmedSlice(s, drop, a, b) && r == s[a..b]
    ensures r != [] ==> !drop(r[0]) && !drop(r[|r| - 1])
  {
    var a := LeadingRun(s, drop);
    var b := TrailingRun(s[a..], drop);
    assert b < |s| - a ==> s[a..][|s| - a - b - 1] == s[|s| - b - 1];
    assert forall i :: |s| - b <= i < |s| ==> s[i] == s[a..][i - a];
    assert TrimmedSlice(s, drop, a, |s| - b);
    s[a..|s| - b]
  }

  /** `s[a..b]` is what is left once only characters satisfying `drop` are
      cut from the front (before `a`) and from the back (from `b`). */
  predicate TrimmedSlice(s: string, drop: char -> bool, a: int, b: int)
  {
    && 0 <= a <= b <= |s|
    && (forall i :: 0 <= i < a ==> drop(s[i]))
    && (forall i :: b <= i < |s| ==> drop(s[i]))
  }

  /** `string.Trim()`: white space at both ends. */
  function Trim(s: string): string
  {
    TrimBoth(s, IsWhiteSpace)
  }

  /** Trimming at both ends is trimming the start and then the end. */
  lemma TrimBothInTwoSteps(s: string, drop: char -> bool)
    ensures TrimBoth(s, drop) == TrimEnd(TrimStart(s, drop), drop)
  {
    var a := LeadingRun(s, drop);
    assert TrimStart(s, drop) == s[a..];
  }

  /** Trimming adds no character: one absent from `s` is absent after. */
  lemma TrimBothKeepsOut(s: string, drop: char -> bool, c: char)
    requires c !in s
    ensures c !in TrimBoth(s, drop)
  {
    var a := LeadingRun(s, drop);
    var b := TrailingRun(s[a..], drop);
    assert TrimBoth(s, drop) == s[a..|s| - b];
  }

  // ---------------------------------------------------------------------
  // Searching, splitting, joining, replacing
  // ---------------------------------------------------------------------

  /** `s.IndexOf(c)`: the first index of `c`, or -1. */
  function IndexOf(s: string, c: char): (i: int)
    ensures -1 <= i < |s|
    ensures i == -1 <==> c !in s
    ensures 0 <= i ==> s[i] == c && c !in s[..i]
  {
    if s == [] then -1
    else if s[0] == c then 0
    else
      var j := IndexOf(s[1..], c);
      if j < 0 then -1
      else
        assert s[..j + 1] == [s[0]] + s[1..][..j];
        j + 1
  }

  /** `s.Split(sep)`: the pieces between separators, empty ones included, so
      there is always one piece more than there are separators. */
  function Split(s: string, sep: char): (parts: seq<string>)
    ensures |parts| >= 1
    ensures forall i :: 0 <= i < |parts| ==> sep !in parts[i]
  {
    if s == [] then [[]]
    else
      var rest := Split(s[1..], sep);
      if s[0] == sep then [[]] + rest
      else [[s[0]] + rest[0]] + rest[1..]
  }

  /** `string.Join(sep, parts)`. */
  function Join(parts: seq<string>, sep: char): string
  {
    if |parts| == 0 then []
    else if |parts| == 1 then parts[0]
    else parts[0] + [sep] + Join(parts[1..], sep)
  }

  /** Joining the pieces of a split with the same separator gives back the
      original string. */
  lemma {:induction false} JoinSplit(s: string, sep: char)
    ensures Join(Split(s, sep), sep) == s
  {
    if s != [] {
      var rest := Split(s[1..], sep);
      JoinSplit(s[1..], sep);
      if s[0] == sep {
        assert Split(s, sep) == [[]] + rest;
        assert Join([[]] + rest, sep) == [] + [sep] + Join(rest, sep);
      } else {
        var parts := [[s[0]] + rest[0]] + rest[1..];
        if |rest| == 1 {
          assert parts == [[s[0]] + rest[0]];
        } else {
          assert parts[1..] == rest[1..];
          assert Join(rest, sep) == rest[0] + [sep] + Join(rest[1..], sep);
        }
      }
    }
  }

  /** Splitting a string that starts with a separator-free piece followed by
      the separator yields that piece first. */
  lemma {:induction false} SplitAfterPiece(a: string, sep: char, rest: string)
    requires sep !in a
    ensures Split(a + [sep] + rest, sep) == [a] + Split(rest, sep)
  {
    if a != [] {
      var whole := a + [sep] + rest;
      SplitAfterPiece(a[1..], sep, rest);
      assert whole[0] == a[0] && whole[1..] == a[1..] + [sep] + rest;
      var tail := Split(whole[1..], sep);
      assert tail[0] == a[1..] && tail[1..] == Split(rest, sep);
      assert [a[0]] + a[1..] == a;
    } else {
      assert [] + [sep] + rest == [sep] + rest;
      assert ([sep] + rest)[1..] == rest;
    }
  }

  /** Splitting a string with no separator yields the string itself. */
  lemma {:induction false} SplitNoSeparator(s: string, sep: char)
    requires sep !in s
    ensures Split(s, sep) == [s]
  {
    if s != [] {
      SplitNoSeparator(s[1..], sep);
      assert [s[0]] + s[1..] == s;
    }
  }

  /** Splitting a join of separator-free pieces gives back the pieces. */
  lemma {:induction false} SplitJoin(parts: seq<string>, sep: char)
    requires |parts| >= 1
    requires forall i :: 0 <= i < |parts| ==> sep !in parts[i]
    ensures Split(Join(parts, sep), sep) == parts
  {
    if |parts| == 1 {
      SplitNoSeparator(parts[0], sep);
    } else {
      SplitJoin(parts[1..], sep);
      SplitAfterPiece(parts[0], sep, Join(parts[1..], sep));
      assert [parts[0]] + parts[1..] == parts;
    }
  }

  /** `s.Replace(from, to)` for single characters. */
  function ReplaceChar(s: string, from: char, to: char): (r: string)
    ensures |r| == |s|
    ensures forall i :: 0 <= i < |s| ==> r[i] == (if s[i] == from then to else s[i])
  {
    seq(|s|, i requires 0 <= i < |s| => if s[i] == from then to else s[i])
  }

  /** `s.Replace(c.ToString(), "")`: every occurrence of `c` removed. */
  function RemoveChar(s: string, c: char): (r: string)
    ensures c !in r
    ensures |r| <= |s|
    ensures forall d :: d in r ==> d in s
    ensures c !in s ==> r == s
  {
    if s == [] then []
    else
      assert [s[0]] + s[1..] == s;
      (if s[0] == c then [] else [s[0]]) + RemoveChar(s[1..], c)
  }

  /** Removal works piece by piece, so every other character stays, in order. */
  lemma {:induction false} RemoveCharAppend(a: string, b: string, c: char)
    ensures RemoveChar(a + b, c) == RemoveChar(a, c) + RemoveChar(b, c)
  {
    if a != [] {
      RemoveCharAppend(a[1..], b, c);
      assert (a + b)[0] == a[0] && (a + b)[1..] == a[1..] + b;
      var head := if a[0] == c then [] else [a[0]];
      assert RemoveChar(a, c) == head + RemoveChar(a[1..], c);
    } else {
      assert a + b == b;
    }
  }

}
