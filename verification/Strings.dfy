/** Python and JavaScript string operations that several modules share. */
module Strings {

  predicate StartsWith(s: string, prefix: string) {
    |prefix| <= |s| && s[..|prefix|] == prefix
  }

  predicate EndsWith(s: string, suffix: string) {
    |suffix| <= |s| && s[|s| - |suffix|..] == suffix
  }

  /** Python's `needle in s`. */
  predicate Contains(s: string, needle: string) {
    exists i :: 0 <= i <= |s| && StartsWith(s[i..], needle)
  }

  /** Python's `str.replace` for a one-character pattern. */
  function Replace(s: string, c: char, with: string): string {
    if s == "" then "" else (if s[0] == c then with else [s[0]]) + Replace(s[1..], c, with)
  }

  lemma {:induction false} ReplaceSplits(a: string, b: string, c: char, with: string)
    ensures Replace(a + b, c, with) == Replace(a, c, with) + Replace(b, c, with)
  {
    if a == "" {
      assert a + b == b;
    } else {
      assert (a + b)[1..] == a[1..] + b;
      ReplaceSplits(a[1..], b, c, with);
    }
  }

  lemma ReplaceOne(x: char, c: char, with: string)
    ensures Replace([x], c, with) == if x == c then with else [x]
  {
    assert [x][1..] == "";
  }

  lemma ReplaceTwo(x: char, y: char, c: char, with: string)
    requires x != c
    ensures Replace([x, y], c, with) == [x] + if y == c then with else [y]
  {
    assert [x, y] == [x] + [y];
    ReplaceSplits([x], [y], c, with);
    ReplaceOne(x, c, with);
    ReplaceOne(y, c, with);
  }

  /** A replaced character is gone, unless the replacement brings it back; others come only from the text. */
  lemma {:induction false} ReplaceRemoves(s: string, c: char, with: string, x: char)
    requires x !in with && (x == c || x !in s)
    ensures x !in Replace(s, c, with)
  {
    if s != "" {
      assert x in s[1..] ==> x in s;
      ReplaceRemoves(s[1..], c, with, x);
    }
  }

  /** Position of the first occurrence, or the length when there is none. */
  function IndexOf(s: string, c: char): (n: nat)
    ensures n <= |s|
    ensures forall i :: 0 <= i < n ==> s[i] != c
    ensures n < |s| ==> s[n] == c
  {
    if s == "" || s[0] == c then 0 else 1 + IndexOf(s[1..], c)
  }

  /** Position of the last occurrence, or -1. */
  function LastIndexOf(s: string, c: char): (n: int)
    ensures -1 <= n < |s|
    ensures forall i :: n < i < |s| ==> s[i] != c
    ensures n >= 0 ==> s[n] == c
  {
    if s == "" then -1 else if s[|s| - 1] == c then |s| - 1 else LastIndexOf(s[..|s| - 1], c)
  }

  /** JavaScript's `split`: always at least one part. */
  function Split(s: string, c: char): (parts: seq<string>)
    ensures parts != []
    decreases |s|
  {
    var n := IndexOf(s, c);
    if n == |s| then [s] else [s[..n]] + Split(s[n + 1..], c)
  }

  function Join(parts: seq<string>, separator: string): string {
    if parts == [] then "" else if |parts| == 1 then parts[0] else parts[0] + separator + Join(parts[1..], separator)
  }

  lemma {:induction false} IndexOfIs(head: string, c: char, tail: string)
    requires c !in head
    ensures IndexOf(head + [c] + tail, c) == |head|
  {
    var s := head + [c] + tail;
    assert s[|head|] == c;
    assert forall i :: 0 <= i < |head| ==> s[i] == head[i];
  }

  lemma LastIndexOfAt(s: string, c: char, n: nat)
    requires n < |s| && s[n] == c && forall i :: n < i < |s| ==> s[i] != c
    ensures LastIndexOf(s, c) == n
  {
  }

  lemma LastIndexOfIs(head: string, c: char, tail: string)
    requires c !in tail
    ensures LastIndexOf(head + [c] + tail, c) == |head|
  {
    hide LastIndexOf;
    var s := head + [c] + tail;
    assert s[|head| + 1..] == tail;
    forall i | |head| < i < |s| ensures s[i] != c {
      assert s[|head| + 1..][i - |head| - 1] in tail;
    }
    LastIndexOfAt(s, c, |head|);
  }

  lemma {:induction false} SplitOfTerminated(lines: seq<string>, c: char)
    requires forall line :: line in lines ==> c !in line
    ensures lines != [] ==> Split(Join(lines, [c]) + [c], c) == lines + [""]
    ensures Split("", c) == [""]
  {
    if |lines| == 1 {
      assert lines[0] in lines;
      SplitStep(lines[0], "", c);
      assert lines[0] + [c] + "" == lines[0] + [c];
    } else if |lines| > 1 {
      assert lines[0] in lines;
      var rest := Join(lines[1..], [c]) + [c];
      assert Join(lines, [c]) + [c] == lines[0] + [c] + rest;
      hide Join, Split;
      assert lines + [""] == [lines[0]] + (lines[1..] + [""]);
      SplitOfTerminated(lines[1..], c);
      SplitStep(lines[0], rest, c);
    }
  }

  lemma SplitStep(head: string, tail: string, c: char)
    requires c !in head
    ensures Split(head + [c] + tail, c) == [head] + Split(tail, c)
  {
    IndexOfIs(head, c, tail);
    var s := head + [c] + tail;
    assert s[..|head|] == head && s[|head| + 1..] == tail;
  }
}
