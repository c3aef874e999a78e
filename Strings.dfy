/** The string operations the archive paths are built from: `replaceAll` of one
    character, `startsWith`/`endsWith`, and `split`/`join` on a separator.
    Each function states only its length in its contract; what it does at each
    position is a lemma, called where a proof needs it. */
module Strings {

  predicate StartsWith(s: string, prefix: string) {
    |prefix| <= |s| && s[..|prefix|] == prefix
  }

  predicate EndsWith(s: string, suffix: string) {
    |suffix| <= |s| && s[|s| - |suffix|..] == suffix
  }

  /** `s.replaceAll(from, to)` where both patterns are single characters. */
  function ReplaceChar(s: string, from: char, to: char): (r: string)
    ensures |r| == |s|
  {
    if s == [] then [] else [if s[0] == from then to else s[0]] + ReplaceChar(s[1..], from, to)
  }

  /** Every `from` becomes `to`; every other character stays. */
  lemma {:induction false} ReplaceCharAt(s: string, from: char, to: char)
    ensures forall i :: 0 <= i < |s| ==> ReplaceChar(s, from, to)[i] == if s[i] == from then to else s[i]
  {
    if s != [] {
      ReplaceCharAt(s[1..], from, to);
      var r := ReplaceChar(s, from, to);
      assert r == [if s[0] == from then to else s[0]] + ReplaceChar(s[1..], from, to);
      forall i | 1 <= i < |s| ensures r[i] == if s[i] == from then to else s[i] {
        assert s[1..][i - 1] == s[i];
      }
    }
  }

  lemma ReplaceCharConcat(a: string, b: string, from: char, to: char)
    ensures ReplaceChar(a + b, from, to) == ReplaceChar(a, from, to) + ReplaceChar(b, from, to)
  {
    ReplaceCharAt(a + b, from, to);
    ReplaceCharAt(a, from, to);
    ReplaceCharAt(b, from, to);
    var l, r := ReplaceChar(a + b, from, to), ReplaceChar(a, from, to) + ReplaceChar(b, from, to);
    forall i | 0 <= i < |l| ensures l[i] == r[i] {
      if i < |a| { assert (a + b)[i] == a[i]; } else { assert (a + b)[i] == b[i - |a|]; }
    }
  }

  /** After the replacement no `from` character is left (when it is not also `to`). */
  lemma ReplaceCharRemoves(s: string, from: char, to: char)
    requires from != to
    ensures from !in ReplaceChar(s, from, to)
  {
    ReplaceCharAt(s, from, to);
  }

  /** Replacing a character that does not occur changes nothing. */
  lemma ReplaceCharAbsent(s: string, from: char, to: char)
    requires from !in s
    ensures ReplaceChar(s, from, to) == s
  {
    ReplaceCharAt(s, from, to);
    var r := ReplaceChar(s, from, to);
    assert forall i :: 0 <= i < |s| ==> r[i] == s[i];
  }

  /** `a -> b` followed by `b -> a` sends both to `a`, as one `b -> a` does. */
  lemma ReplaceCharThere(s: string, a: char, b: char)
    ensures ReplaceChar(ReplaceChar(s, a, b), b, a) == ReplaceChar(s, b, a)
  {
    ReplaceCharAt(s, a, b);
    ReplaceCharAt(ReplaceChar(s, a, b), b, a);
    ReplaceCharAt(s, b, a);
    var l, r := ReplaceChar(ReplaceChar(s, a, b), b, a), ReplaceChar(s, b, a);
    assert forall i :: 0 <= i < |s| ==> l[i] == r[i];
  }

  /** A suffix made of characters other than `from` and `to` survives the replacement. */
  lemma ReplaceCharEndsWith(s: string, suffix: string, from: char, to: char)
    requires from !in suffix && to !in suffix
    ensures EndsWith(ReplaceChar(s, from, to), suffix) <==> EndsWith(s, suffix)
  {
    ReplaceCharAt(s, from, to);
    var r := ReplaceChar(s, from, to);
    if |suffix| <= |s| {
      var k := |s| - |suffix|;
      if EndsWith(s, suffix) {
        forall i | 0 <= i < |suffix| ensures r[k..][i] == suffix[i] {
          assert s[k..][i] == suffix[i];
        }
      }
      if EndsWith(r, suffix) {
        forall i | 0 <= i < |suffix| ensures s[k..][i] == suffix[i] {
          assert r[k..][i] == suffix[i];
          assert r[k + i] == suffix[i];
        }
      }
    }
  }

  /** JavaScript's `.length`: the number of UTF-16 code units, two for a
      character outside the Basic Multilingual Plane. */
  function Utf16Length(s: string): (n: nat)
    ensures |s| <= n <= 2 * |s|
  {
    if s == [] then 0 else Utf16Length(s[..|s| - 1]) + (if s[|s| - 1] as int > 0xFFFF then 2 else 1)
  }

  /** Index of the first `c` in `s`, or `|s|` when there is none. */
  function IndexOf(s: string, c: char): (i: nat)
    ensures i <= |s|
    ensures i < |s| ==> s[i] == c
  {
    if s == [] then 0 else if s[0] == c then 0 else 1 + IndexOf(s[1..], c)
  }

  /** Nothing before the first `c` is a `c`. */
  lemma {:induction false} IndexOfFirst(s: string, c: char)
    ensures forall j :: 0 <= j < IndexOf(s, c) ==> s[j] != c
  {
    if s != [] && s[0] != c {
      IndexOfFirst(s[1..], c);
      assert forall j :: 1 <= j < IndexOf(s, c) ==> s[j] == s[1..][j - 1];
    }
  }

  /** Index of the last `c` in `s`, or -1 when there is none. */
  function LastIndexOf(s: string, c: char): (i: int)
    ensures -1 <= i < |s|
    ensures 0 <= i ==> s[i] == c
  {
    if s == [] then -1 else if s[|s| - 1] == c then |s| - 1 else LastIndexOf(s[..|s| - 1], c)
  }

  /** Nothing after the last `c` is a `c`. */
  lemma {:induction false} LastIndexOfLast(s: string, c: char)
    ensures forall j :: LastIndexOf(s, c) < j < |s| ==> s[j] != c
  {
    if s != [] && s[|s| - 1] != c {
      LastIndexOfLast(s[..|s| - 1], c);
      assert forall j :: LastIndexOf(s, c) < j < |s| - 1 ==> s[j] == s[..|s| - 1][j];
    }
  }

  /** `s.split(sep)`: the pieces between separators, always at least one. */
  function Split(s: string, sep: char): (parts: seq<string>)
    ensures |parts| >= 1
    decreases |s|
  {
    var i := IndexOf(s, sep);
    if i == |s| then [s] else [s[..i]] + Split(s[i + 1..], sep)
  }

  /** `parts.join(sep)`. */
  function Join(parts: seq<string>, sep: char): string {
    if |parts| == 0 then ""
    else if |parts| == 1 then parts[0]
    else parts[0] + [sep] + Join(parts[1..], sep)
  }

  /** Joining the pieces of a split gives the string back. */
  lemma {:induction false} JoinSplit(s: string, sep: char)
    ensures Join(Split(s, sep), sep) == s
    decreases |s|
  {
    var i := IndexOf(s, sep);
    if i < |s| {
      var rest := s[i + 1..];
      var parts := Split(s, sep);
      assert parts == [s[..i]] + Split(rest, sep);
      assert parts[1..] == Split(rest, sep);
      assert Join(parts, sep) == s[..i] + [sep] + Join(Split(rest, sep), sep);
      JoinSplit(rest, sep);
      assert s == s[..i] + [sep] + rest;
    }
  }

  /** The first `c` of `a + b` is the first one of `b` when `a` has none. */
  lemma {:induction false} IndexOfAfter(a: string, b: string, c: char)
    requires c !in a
    ensures IndexOf(a + b, c) == |a| + IndexOf(b, c)
    decreases |a|
  {
    if a != [] {
      assert (a + b)[0] == a[0];
      assert (a + b)[1..] == a[1..] + b;
      IndexOfAfter(a[1..], b, c);
    } else {
      assert a + b == b;
    }
  }

  /** A piece without the separator, followed by the separator, splits off first. */
  lemma SplitCons(x: string, rest: string, sep: char)
    requires sep !in x
    ensures Split(x + [sep] + rest, sep) == [x] + Split(rest, sep)
  {
    var s := x + [sep] + rest;
    assert s == x + ([sep] + rest);
    IndexOfAfter(x, [sep] + rest, sep);
    assert s[..|x|] == x && s[|x| + 1..] == rest;
  }

  /** Splitting the join of pieces that hold no separator gives the pieces back. */
  lemma {:induction false} SplitJoin(parts: seq<string>, sep: char)
    requires |parts| >= 1 && forall j :: 0 <= j < |parts| ==> sep !in parts[j]
    ensures Split(Join(parts, sep), sep) == parts
    decreases |parts|
  {
    var p := parts[0];
    if |parts| > 1 {
      var rest := Join(parts[1..], sep);
      var s := Join(parts, sep);
      assert s == p + ([sep] + rest);
      IndexOfAfter(p, [sep] + rest, sep);
      assert s[..|p|] == p && s[|p| + 1..] == rest;
      SplitJoin(parts[1..], sep);
      assert parts == [p] + parts[1..];
    }
  }
}
