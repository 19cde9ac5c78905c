/**
  Character-sequence operations of the Rust standard library that the to-do
  program relies on: `str::split` on a single character and `str::lines`.
  Strings are sequences of `char`.
 */
module Text {

  /** The number of occurrences of `c` in `s`. */
  function Count(s: string, c: char): nat
  {
    if s == [] then 0 else (if s[0] == c then 1 else 0) + Count(s[1..], c)
  }

  lemma {:induction false} CountAppend(a: string, b: string, c: char)
    ensures Count(a + b, c) == Count(a, c) + Count(b, c)
  {
    if a == [] {
      assert a + b == b;
    } else {
      assert (a + b)[1..] == a[1..] + b;
      CountAppend(a[1..], b, c);
    }
  }

  lemma {:induction false} CountZero(s: string, c: char)
    ensures c !in s <==> Count(s, c) == 0
  {
    if s != [] {
      assert s == [s[0]] + s[1..];
      CountZero(s[1..], c);
    }
  }

  /** The position of the first `c` in `s`. */
  function IndexOf(s: string, c: char): (i: nat)
    requires c in s
    ensures i < |s| && s[i] == c && c !in s[..i]
  {
    if s[0] == c then 0
    else
      assert s == [s[0]] + s[1..];
      var j := IndexOf(s[1..], c);
      assert s[..j + 1] == [s[0]] + s[1..][..j];
      j + 1
  }

  /** The first `c` of `a + [c] + b` is the one right after `a` when `a` holds none. */
  lemma IndexOfAfterPrefix(a: string, c: char, b: string)
    requires c !in a
    ensures c in a + [c] + b && IndexOf(a + [c] + b, c) == |a|
  {
    var s := a + [c] + b;
    assert s[|a|] == c;
  }

  /** `parts` glued back together with `sep` between consecutive pieces. */
  function Join(parts: seq<string>, sep: char): string
  {
    if |parts| == 0 then []
    else if |parts| == 1 then parts[0]
    else parts[0] + [sep] + Join(parts[1..], sep)
  }

  /**
    Rust's `s.split(sep)` for a single-character separator: the pieces
    between consecutive separators, empty pieces included, so there is
    always one more piece than there are separators.
   */
  function Split(s: string, sep: char): (parts: seq<string>)
    ensures |parts| == Count(s, sep) + 1
    ensures forall k :: 0 <= k < |parts| ==> sep !in parts[k]
    decreases |s|
  {
    if sep !in s then
      CountZero(s, sep);
      [s]
    else
      var i := IndexOf(s, sep);
      var rest := Split(s[i + 1..], sep);
      assert s == s[..i] + [sep] + s[i + 1..];
      CountAppend(s[..i] + [sep], s[i + 1..], sep);
      CountAppend(s[..i], [sep], sep);
      CountZero(s[..i], sep);
      [s[..i]] + rest
  }

  /** Joining the pieces of a split with the separator gives back the text. */
  lemma {:induction false} JoinSplit(s: string, sep: char)
    ensures Join(Split(s, sep), sep) == s
    decreases |s|
  {
    if sep in s {
      var i := IndexOf(s, sep);
      var rest := s[i + 1..];
      JoinSplit(rest, sep);
      SplitFirst(s, sep);
      assert s == s[..i] + [sep] + rest;
    }
  }

  /** Splitting at the first separator: the piece before it, then the pieces of the rest. */
  lemma SplitFirst(s: string, sep: char)
    requires sep in s
    ensures Split(s, sep) == [s[..IndexOf(s, sep)]] + Split(s[IndexOf(s, sep) + 1..], sep)
  {
  }

  /** Splitting inverts joining when no piece holds the separator. */
  lemma {:induction false} SplitJoin(parts: seq<string>, sep: char)
    requires |parts| >= 1
    requires forall k :: 0 <= k < |parts| ==> sep !in parts[k]
    ensures Split(Join(parts, sep), sep) == parts
    decreases |parts|
  {
    if |parts| == 1 {
      assert Join(parts, sep) == parts[0];
    } else {
      var first, rest := parts[0], parts[1..];
      var tail := Join(rest, sep);
      var s := first + [sep] + tail;
      assert Join(parts, sep) == s;
      IndexOfAfterPrefix(first, sep, tail);
      assert s[..|first|] == first;
      assert s[|first| + 1..] == tail;
      SplitFirst(s, sep);
      SplitJoin(rest, sep);
      assert parts == [first] + rest;
    }
  }

  /** Removes one trailing carriage return, as `str::lines` does for a `"\r\n"` ending. */
  function StripCarriageReturn(line: string): string
  {
    if |line| > 0 && line[|line| - 1] == '\r' then line[..|line| - 1] else line
  }

  /**
    Rust's `s.lines()`: the text is cut after every `'\n'`; a piece that
    ended in `'\n'` loses it and then one `'\r'` before it, a final piece
    without `'\n'` is kept as it is, and no empty line follows a final
    `'\n'`. So there is one line per newline plus one for an unterminated tail.
   */
  function Lines(s: string): (lines: seq<string>)
    ensures forall k :: 0 <= k < |lines| ==> '\n' !in lines[k]
    ensures |lines| == Count(s, '\n') + (if s != [] && s[|s| - 1] != '\n' then 1 else 0)
    decreases |s|
  {
    if s == [] then []
    else if '\n' !in s then
      CountZero(s, '\n');
      [s]
    else
      var i := IndexOf(s, '\n');
      var line := StripCarriageReturn(s[..i]);
      var rest := Lines(s[i + 1..]);
      assert s == s[..i] + ['\n'] + s[i + 1..];
      CountAppend(s[..i] + ['\n'], s[i + 1..], '\n');
      CountAppend(s[..i], ['\n'], '\n');
      CountZero(s[..i], '\n');
      [line] + rest
  }

  /** The first line of `a + "\n" + b` is `a` (less a final `'\r'`), the rest are the lines of `b`. */
  lemma LinesCons(a: string, b: string)
    requires '\n' !in a
    ensures Lines(a + "\n" + b) == [StripCarriageReturn(a)] + Lines(b)
  {
    var s := a + "\n" + b;
    IndexOfAfterPrefix(a, '\n', b);
    assert s[..|a|] == a;
    assert s[|a| + 1..] == b;
  }
}
