/**
 * The JavaScript string built-ins the modelled code calls, over `seq<char>`:
 * `startsWith`, `split` with a one-character separator and `toLowerCase`
 * (restricted to the ASCII letters). `EndsWith` and `Join` are not called by
 * the program; the lemmas use them to state suffixes and the split round-trip.
 */
module JsStrings {

  /** `s.startsWith(prefix)`. */
  predicate StartsWith(s: string, prefix: string) {
    |prefix| <= |s| && s[..|prefix|] == prefix
  }

  /** `s` ends with `suffix` (the shape of `String.prototype.endsWith`). */
  predicate EndsWith(s: string, suffix: string) {
    |suffix| <= |s| && s[|s| - |suffix|..] == suffix
  }

  /** `s.split(sep)`: the maximal runs of `s` between occurrences of `sep`; never an empty array. */
  function Split(s: string, sep: char): (r: seq<string>)
    ensures |r| >= 1
    ensures forall k :: 0 <= k < |r| ==> sep !in r[k]
  {
    if s == [] then [[]]
    else
      var rest := Split(s[1..], sep);
      if s[0] == sep then [[]] + rest else [[s[0]] + rest[0]] + rest[1..]
  }

  /** The pieces glued back with `sep` between them (the shape of `Array.prototype.join`). */
  function Join(segments: seq<string>, sep: char): string
    requires |segments| >= 1
  {
    if |segments| == 1 then segments[0] else segments[0] + [sep] + Join(segments[1..], sep)
  }

  /** Joining the pieces of a split gives back the original string. */
  lemma {:induction false} JoinSplit(s: string, sep: char)
    ensures Join(Split(s, sep), sep) == s
  {
    if s != [] {
      JoinSplit(s[1..], sep);
      var rest := Split(s[1..], sep);
      if s[0] == sep {
        assert ([[]] + rest)[1..] == rest;
      } else if |rest| > 1 {
        assert ([[s[0]] + rest[0]] + rest[1..])[1..] == rest[1..];
      }
    }
  }

  /** A string without the separator splits into itself alone. */
  lemma {:induction false} SplitWithoutSeparator(s: string, sep: char)
    requires sep !in s
    ensures Split(s, sep) == [s]
  {
    if s != [] {
      SplitWithoutSeparator(s[1..], sep);
      assert [s[0]] + s[1..] == s;
    }
  }

  /** Splitting distributes over a separator placed between two strings. */
  lemma {:induction false} SplitAround(a: string, sep: char, b: string)
    ensures Split(a + [sep] + b, sep) == Split(a, sep) + Split(b, sep)
  {
    if a == [] {
      assert [] + [sep] + b == [sep] + b;
      assert ([sep] + b)[1..] == b;
    } else {
      assert (a + [sep] + b)[1..] == a[1..] + [sep] + b;
      SplitAround(a[1..], sep, b);
    }
  }

  /** Splitting the join of separator-free pieces gives back the pieces. */
  lemma {:induction false} SplitJoin(segments: seq<string>, sep: char)
    requires |segments| >= 1
    requires forall k :: 0 <= k < |segments| ==> sep !in segments[k]
    ensures Split(Join(segments, sep), sep) == segments
  {
    SplitWithoutSeparator(segments[0], sep);
    if |segments| > 1 {
      SplitJoin(segments[1..], sep);
      SplitAround(segments[0], sep, Join(segments[1..], sep));
      assert [segments[0]] + segments[1..] == segments;
    }
  }

  /**
   * The last piece of a split is a suffix of the string; when there is more than
   * one piece, a separator stands right before it.
   */
  lemma {:induction false} LastSplitSegment(s: string, sep: char)
    ensures var segments := Split(s, sep); var last := segments[|segments| - 1];
      && |last| <= |s|
      && last == s[|s| - |last|..]
      && (|segments| == 1 <==> |last| == |s|)
      && (|segments| > 1 ==> s[|s| - |last| - 1] == sep)
  {
    if s != [] {
      LastSplitSegment(s[1..], sep);
      var rest := Split(s[1..], sep);
      var last := rest[|rest| - 1];
      assert s[1..][|s[1..]| - |last|..] == s[|s| - |last|..];
      if s[0] != sep && |rest| == 1 {
        assert [s[0]] + s[1..] == s;
      }
    }
  }

  /** The ASCII part of `String.prototype.toLowerCase` on one character. */
  function LowerChar(c: char): char {
    if 'A' <= c <= 'Z' then (c as int - 'A' as int + 'a' as int) as char else c
  }

  /** `s.toLowerCase()` for ASCII letters; every other character is kept. */
  function ToLower(s: string): (r: string)
    ensures |r| == |s|
    ensures forall k :: 0 <= k < |s| ==> r[k] == LowerChar(s[k])
  {
    if s == [] then [] else [LowerChar(s[0])] + ToLower(s[1..])
  }

  /** Lower-casing neither creates nor removes a character that is not an upper-case letter. */
  lemma ToLowerKeepsNonLetter(s: string, c: char)
    requires !('A' <= c <= 'Z') && !('a' <= c <= 'z')
    ensures c in ToLower(s) <==> c in s
  {
    if c in ToLower(s) {
      var k :| 0 <= k < |s| && ToLower(s)[k] == c;
      assert s[k] == c;
    }
    if c in s {
      var k :| 0 <= k < |s| && s[k] == c;
      assert ToLower(s)[k] == c;
    }
  }
}
