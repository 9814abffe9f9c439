/**
 * The few string operations of Python that the card reader and the capture
 * station rely on: `s.count(c)`, `s.split(c)` with a one-character separator,
 * its inverse `c.join(parts)`, and the slices `s[:-1]` and `s[1:]`.
 *
 * `Before` and `After` describe the first occurrence of a separator by index;
 * they are the reference against which `Split` is proved.
 */
module Strings {

  /** Python's `s.count(c)`: the number of occurrences of `c` in `s`. */
  function Count(s: string, c: char): (n: nat)
    ensures n <= |s|
    ensures n == 0 <==> c !in s
  {
    if s == [] then 0 else (if s[0] == c then 1 else 0) + Count(s[1..], c)
  }

  /** Position of the first `c` in `s`, or `|s|` when there is none. */
  function IndexOf(s: string, c: char): (i: nat)
    ensures i <= |s| && c !in s[..i]
    ensures i < |s| <==> c in s
    ensures i < |s| ==> s[i] == c
  {
    if s == [] || s[0] == c then 0 else 1 + IndexOf(s[1..], c)
  }

  /** The text before the first `c` (all of `s` when `c` does not occur). */
  function Before(s: string, c: char): string
  {
    s[..IndexOf(s, c)]
  }

  /** The text after the first `c` (empty when `c` does not occur). */
  function After(s: string, c: char): string
  {
    if c in s then s[IndexOf(s, c) + 1..] else []
  }

  /** Python's `s.split(c)`: the maximal `c`-free pieces between separators. */
  function Split(s: string, c: char): (parts: seq<string>)
    ensures |parts| == Count(s, c) + 1
    ensures forall i :: 0 <= i < |parts| ==> c !in parts[i]
  {
    if s == [] then [[]]
    else
      var rest := Split(s[1..], c);
      if s[0] == c then [[]] + rest
      else [[s[0]] + rest[0]] + rest[1..]
  }

  /** Python's `c.join(parts)`. */
  function Join(parts: seq<string>, c: char): string
  {
    if parts == [] then []
    else if |parts| == 1 then parts[0]
    else parts[0] + [c] + Join(parts[1..], c)
  }

  /** Python's `s[:-1]`: drops the last character; the empty string stays empty. */
  function DropLast(s: string): (r: string)
    ensures s != [] ==> s == r + [s[|s| - 1]]
    ensures s == [] ==> r == []
  {
    if s == [] then [] else s[..|s| - 1]
  }

  /** Python's `s[1:]`: drops the first character; the empty string stays empty. */
  function DropFirst(s: string): (r: string)
    ensures s != [] ==> s == [s[0]] + r
    ensures s == [] ==> r == []
  {
    if s == [] then [] else s[1..]
  }

  /** A string without the separator splits into itself alone. */
  lemma {:induction false} SplitNoSeparator(s: string, c: char)
    requires c !in s
    ensures Split(s, c) == [s]
  {
    if s != [] {
      SplitNoSeparator(s[1..], c);
      assert [s[0]] + s[1..] == s;
    }
  }

  /** Splitting at the first separator peels off the text before it. */
  lemma {:induction false} SplitAtFirst(a: string, b: string, c: char)
    requires c !in a
    ensures Split(a + [c] + b, c) == [a] + Split(b, c)
  {
    if a == [] {
      assert (a + [c] + b)[1..] == b;
    } else {
      assert (a + [c] + b)[1..] == a[1..] + [c] + b;
      SplitAtFirst(a[1..], b, c);
      assert [a[0]] + a[1..] == a;
    }
  }

  /** A string is the text before its first separator, the separator, and the rest. */
  lemma FirstOccurrence(s: string, c: char)
    requires c in s
    ensures s == Before(s, c) + [c] + After(s, c)
  {
    var i := IndexOf(s, c);
    assert s == s[..i] + [s[i]] + s[i + 1..];
  }

  /** The pieces of `split` are described by the first occurrence: the head is
      `Before`, and the tail is the split of `After`. */
  lemma SplitHead(s: string, c: char)
    ensures Split(s, c)[0] == Before(s, c)
    ensures c in s ==> |Split(s, c)| >= 2 && Split(s, c)[1..] == Split(After(s, c), c)
    ensures c in s ==> Split(s, c)[1] == Before(After(s, c), c)
  {
    if c in s {
      FirstOccurrence(s, c);
      SplitAtFirst(Before(s, c), After(s, c), c);
      SplitHead(After(s, c), c);
    } else {
      SplitNoSeparator(s, c);
    }
  }

  /** Joining the pieces with the separator gives back the original string. */
  lemma {:induction false} JoinSplit(s: string, c: char)
    ensures Join(Split(s, c), c) == s
  {
    if s != [] {
      var rest := Split(s[1..], c);
      JoinSplit(s[1..], c);
      if s[0] == c {
        assert Join([[]] + rest, c) == [] + [c] + Join(rest, c);
      } else {
        JoinConsHead(s[0], rest, c);
        assert [s[0]] + s[1..] == s;
      }
    }
  }

  /** Prefixing the first piece prefixes the joined text. */
  lemma JoinConsHead(x: char, parts: seq<string>, c: char)
    requires parts != []
    ensures Join([[x] + parts[0]] + parts[1..], c) == [x] + Join(parts, c)
  {
    var joined := [[x] + parts[0]] + parts[1..];
    assert joined[1..] == parts[1..];
    if |parts| > 1 {
      assert Join(parts, c) == parts[0] + [c] + Join(parts[1..], c);
    }
  }

  /** Conversely, separator-free pieces survive a join followed by a split. */
  lemma {:induction false} SplitJoin(parts: seq<string>, c: char)
    requires parts != []
    requires forall i :: 0 <= i < |parts| ==> c !in parts[i]
    ensures Split(Join(parts, c), c) == parts
  {
    if |parts| == 1 {
      SplitNoSeparator(parts[0], c);
    } else {
      SplitJoin(parts[1..], c);
      SplitAtFirst(parts[0], Join(parts[1..], c), c);
      assert [parts[0]] + parts[1..] == parts;
    }
  }
}
