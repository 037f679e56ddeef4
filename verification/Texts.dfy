/** Text as a sequence of characters: cutting it at a separator and putting it together again. */
module Texts {

  ghost predicate Free(text: string, c: char)
  {
    forall i :: 0 <= i < |text| ==> text[i] != c
  }

  ghost predicate AllFree(parts: seq<string>, c: char)
  {
    forall i :: 0 <= i < |parts| ==> Free(parts[i], c)
  }

  /** `str::split`: the text cut at every `sep`, empty parts kept. */
  function SplitOn(text: string, sep: char): (parts: seq<string>)
    ensures |parts| >= 1
  {
    if text == "" then [""]
    else
      var rest := SplitOn(text[1..], sep);
      if text[0] == sep then [""] + rest else [[text[0]] + rest[0]] + rest[1..]
  }

  /** `slice::join`. */
  function Join(parts: seq<string>, sep: string): string
  {
    if parts == [] then "" else if |parts| == 1 then parts[0] else parts[0] + sep + Join(parts[1..], sep)
  }

  /** The path with the given parts below the root. */
  function Absolute(parts: seq<string>): string
  {
    "/" + Join(parts, "/")
  }

  lemma {:induction false} JoinTwo(xs: seq<string>, ys: seq<string>, sep: string)
    requires xs != [] && ys != []
    ensures Join(xs + ys, sep) == Join(xs, sep) + sep + Join(ys, sep)
  {
    assert (xs + ys)[1..] == xs[1..] + ys;
    if |xs| > 1 {
      JoinTwo(xs[1..], ys, sep);
    } else {
      assert xs[1..] + ys == ys;
    }
  }

  lemma {:induction false} SplitOnFree(text: string, sep: char)
    requires Free(text, sep)
    ensures SplitOn(text, sep) == [text]
  {
    if text != "" {
      SplitOnFree(text[1..], sep);
      assert text == [text[0]] + text[1..];
    }
  }

  lemma {:induction false} SplitOnFirst(head: string, sep: char, rest: string)
    requires Free(head, sep)
    ensures SplitOn(head + [sep] + rest, sep) == [head] + SplitOn(rest, sep)
  {
    var text := head + [sep] + rest;
    if head == "" {
      assert text[1..] == rest;
    } else {
      SplitOnFirst(head[1..], sep, rest);
      assert text[1..] == head[1..] + [sep] + rest;
      assert head == [head[0]] + head[1..];
    }
  }

  /** Parts that do not hold the separator come back from splitting their join. */
  lemma {:induction false} SplitJoin(parts: seq<string>, sep: char)
    requires parts != [] && AllFree(parts, sep)
    ensures SplitOn(Join(parts, [sep]), sep) == parts
  {
    if |parts| == 1 {
      SplitOnFree(parts[0], sep);
    } else {
      var tail := parts[1..];
      var rest := Join(tail, [sep]);
      SplitJoin(tail, sep);
      SplitOnFirst(parts[0], sep, rest);
      assert Join(parts, [sep]) == parts[0] + [sep] + rest;
      assert parts == [parts[0]] + tail;
    }
  }

  /** No part of a split text holds the separator, and none a character the text does not hold. */
  lemma {:induction false} SplitParts(text: string, sep: char, other: char)
    ensures AllFree(SplitOn(text, sep), sep)
    ensures Free(text, other) ==> AllFree(SplitOn(text, sep), other)
  {
    if text != "" {
      SplitParts(text[1..], sep, other);
    }
  }

  lemma {:induction false} JoinFree(parts: seq<string>, sep: char, c: char)
    requires AllFree(parts, c) && sep != c
    ensures Free(Join(parts, [sep]), c)
  {
    if |parts| > 1 {
      JoinFree(parts[1..], sep, c);
    }
  }

  predicate StartsWith(text: string, prefix: string)
  {
    |prefix| <= |text| && text[..|prefix|] == prefix
  }

  predicate IsDigit(c: char)
  {
    '0' <= c <= '9'
  }

  predicate AllDigits(s: string)
  {
    forall i :: 0 <= i < |s| ==> IsDigit(s[i])
  }

  /** `char::is_whitespace`. */
  predicate IsWhitespace(c: char)
  {
    var n := c as int;
    || 0x09 <= n <= 0x0d || n == 0x20 || n == 0x85 || n == 0xa0 || n == 0x1680
    || 0x2000 <= n <= 0x200a || n == 0x2028 || n == 0x2029 || n == 0x202f || n == 0x205f || n == 0x3000
  }

  function TrimStart(s: string): string
  {
    if s != "" && IsWhitespace(s[0]) then TrimStart(s[1..]) else s
  }

  function TrimEnd(s: string): string
  {
    if s != "" && IsWhitespace(s[|s| - 1]) then TrimEnd(s[..|s| - 1]) else s
  }

  /** `str::trim`. */
  function Trim(s: string): string
  {
    TrimEnd(TrimStart(s))
  }

  ghost predicate AllWhitespace(s: string)
  {
    forall i :: 0 <= i < |s| ==> IsWhitespace(s[i])
  }

  /** Trimming takes off the whitespace on both sides, and nothing else. */
  lemma TrimPadded(left: string, core: string, right: string)
    requires AllWhitespace(left) && AllWhitespace(right)
    requires core != "" ==> !IsWhitespace(core[0]) && !IsWhitespace(core[|core| - 1])
    ensures Trim(left + core + right) == core
  {
    assert left + core + right == left + (core + right);
    TrimStartPadded(left, core + right);
    if core == "" {
      assert core + right == right && right == right + "";
      TrimStartPadded(right, "");
    } else {
      TrimEndPadded(core, right);
    }
  }

  lemma {:induction false} TrimStartPadded(left: string, rest: string)
    requires AllWhitespace(left)
    ensures TrimStart(left + rest) == TrimStart(rest)
  {
    if left == "" {
      assert left + rest == rest;
    } else {
      TrimStartPadded(left[1..], rest);
      assert (left + rest)[1..] == left[1..] + rest;
    }
  }

  lemma {:induction false} TrimEndPadded(core: string, right: string)
    requires AllWhitespace(right)
    ensures TrimEnd(core + right) == TrimEnd(core)
    decreases |right|
  {
    if right == "" {
      assert core + right == core;
    } else {
      var n := |right| - 1;
      TrimEndPadded(core, right[..n]);
      assert (core + right)[..|core| + n] == core + right[..n];
    }
  }

  lemma Append(out: string, piece: string, tail: string)
    ensures out + (piece + tail) == out + piece + tail
  {
  }
}
