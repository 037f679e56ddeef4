/** The two escape layers of a mount table: the kernel's octal escapes around the overlay option syntax
(nails-teardown/src/mountinfo.rs, with the kernel's printer in fuzz/src/kernel.rs). */
module Escapes {
  import opened Basics
  import opened Texts

  predicate IsOctal(c: char)
  {
    '0' <= c <= '7'
  }

  /** A backslash, three octal digits, and a value that fits a byte. */
  predicate StartsOctal(s: string)
  {
    && |s| >= 4 && s[0] == '\\' && IsOctal(s[1]) && IsOctal(s[2]) && IsOctal(s[3])
    && OctalValue(s) <= 255
  }

  function OctalValue(s: string): nat
    requires |s| >= 4 && IsOctal(s[1]) && IsOctal(s[2]) && IsOctal(s[3])
  {
    (s[1] as int - '0' as int) * 64 + (s[2] as int - '0' as int) * 8 + (s[3] as int - '0' as int)
  }

  // ------------------------------------------------------------------ decoding

  /** Octal escapes decoded, and any other backslash takes the next character literally. */
  function Unescape(s: string): string
  {
    if s == "" then ""
    else if StartsOctal(s) then [OctalValue(s) as char] + Unescape(s[4..])
    else if s[0] == '\\' && |s| >= 2 then [s[1]] + Unescape(s[2..])
    else [s[0]] + Unescape(s[1..])
  }

  /** Only the octal escapes decoded; every other escape stays, pair and all. */
  function UnescapeOctal(s: string): string
  {
    if s == "" then ""
    else if StartsOctal(s) then [OctalValue(s) as char] + UnescapeOctal(s[4..])
    else if s[0] == '\\' && |s| >= 2 then s[..2] + UnescapeOctal(s[2..])
    else [s[0]] + UnescapeOctal(s[1..])
  }

  /** A backslash takes the next character literally. */
  function UnescapeOverlay(s: string): string
  {
    if s == "" then ""
    else if s[0] == '\\' && |s| >= 2 then [s[1]] + UnescapeOverlay(s[2..])
    else [s[0]] + UnescapeOverlay(s[1..])
  }

  /** Cut at every `delim` that no backslash precedes, escapes kept. */
  function SplitRaw(s: string, delim: char): (parts: seq<string>)
    ensures |parts| >= 1
  {
    if s == "" then [""]
    else if s[0] == '\\' && |s| >= 2 then
      var rest := SplitRaw(s[2..], delim);
      [s[..2] + rest[0]] + rest[1..]
    else
      var rest := SplitRaw(s[1..], delim);
      if s[0] != '\\' && s[0] == delim then [""] + rest else [[s[0]] + rest[0]] + rest[1..]
  }

  /** `unescape`: one index moving over the text. */
  method DecodeEscapes(s: string) returns (out: string)
    ensures out == Unescape(s)
  {
    out := "";
    var i := 0;
    while i < |s|
      invariant 0 <= i <= |s|
      invariant Unescape(s) == out + Unescape(s[i..])
    {
      var piece, width := [s[i]], 1;
      if StartsOctal(s[i..]) {
        piece, width := [OctalValue(s[i..]) as char], 4;
      } else if s[i] == '\\' && i + 1 < |s| {
        piece, width := [s[i + 1]], 2;
      }
      assert s[i..][width..] == s[i + width..];
      Append(out, piece, Unescape(s[i + width..]));
      out := out + piece;
      i := i + width;
    }
  }

  /** `unescape_octal`. */
  method DecodeOctal(s: string) returns (out: string)
    ensures out == UnescapeOctal(s)
  {
    out := "";
    var i := 0;
    while i < |s|
      invariant 0 <= i <= |s|
      invariant UnescapeOctal(s) == out + UnescapeOctal(s[i..])
    {
      var piece, width := [s[i]], 1;
      if StartsOctal(s[i..]) {
        piece, width := [OctalValue(s[i..]) as char], 4;
      } else if s[i] == '\\' && i + 1 < |s| {
        piece, width := s[i..i + 2], 2;
        assert s[i..][..2] == piece;
      }
      assert s[i..][width..] == s[i + width..];
      Append(out, piece, UnescapeOctal(s[i + width..]));
      out := out + piece;
      i := i + width;
    }
  }

  /** `unescape_overlay`. */
  method DecodeOverlay(s: string) returns (out: string)
    ensures out == UnescapeOverlay(s)
  {
    out := "";
    var i := 0;
    while i < |s|
      invariant 0 <= i <= |s|
      invariant UnescapeOverlay(s) == out + UnescapeOverlay(s[i..])
    {
      var piece, width := [s[i]], 1;
      if s[i] == '\\' && i + 1 < |s| {
        piece, width := [s[i + 1]], 2;
      }
      assert s[i..][width..] == s[i + width..];
      Append(out, piece, UnescapeOverlay(s[i + width..]));
      out := out + piece;
      i := i + width;
    }
  }

  /** The pieces cut so far, the piece under way and the pieces of what is left. */
  ghost function Glue(out: seq<string>, cur: string, rest: seq<string>): seq<string>
    requires |rest| >= 1
  {
    out + [cur + rest[0]] + rest[1..]
  }

  lemma GlueStart(rest: seq<string>)
    requires |rest| >= 1
    ensures Glue([], "", rest) == rest
  {
    assert "" + rest[0] == rest[0];
  }

  lemma GlueMore(out: seq<string>, cur: string, piece: string, rest: seq<string>)
    requires |rest| >= 1
    ensures Glue(out, cur, [piece + rest[0]] + rest[1..]) == Glue(out, cur + piece, rest)
  {
    Append(cur, piece, rest[0]);
  }

  lemma GlueNext(out: seq<string>, cur: string, rest: seq<string>)
    requires |rest| >= 1
    ensures Glue(out, cur, [""] + rest) == Glue(out + [cur], "", rest)
  {
    assert cur + "" == cur && "" + rest[0] == rest[0];
    assert ([""] + rest)[1..] == rest;
    assert out + [cur] + rest == out + [cur] + [rest[0]] + rest[1..];
  }

  /** What cutting the text from `i` on makes of the character there. */
  lemma SplitRawStep(s: string, i: nat, delim: char)
    requires i < |s|
    ensures var rest := SplitRaw(s[i + 1..], delim);
      s[i] != '\\' ==> SplitRaw(s[i..], delim) == if s[i] == delim then [""] + rest else [[s[i]] + rest[0]] + rest[1..]
    ensures s[i] == '\\' && i + 1 == |s| ==> SplitRaw(s[i..], delim) == [['\\']]
    ensures s[i] == '\\' && i + 1 < |s| ==>
      var rest := SplitRaw(s[i + 2..], delim);
      SplitRaw(s[i..], delim) == [['\\', s[i + 1]] + rest[0]] + rest[1..]
  {
    assert s[i..][1..] == s[i + 1..];
    if i + 1 < |s| {
      assert s[i..][2..] == s[i + 2..] && s[i..][..2] == [s[i], s[i + 1]];
    } else {
      assert s[i + 1..] == "" && SplitRaw("", delim) == [""];
      assert [s[i]] + "" == [s[i]];
    }
  }

  /** `split_raw`: one pass with an escape flag. */
  method CutRaw(s: string, delim: char) returns (out: seq<string>)
    ensures out == SplitRaw(s, delim)
  {
    out := [];
    var cur, escaped := "", false;
    GlueStart(SplitRaw(s, delim));
    assert s[0..] == s;
    for i := 0 to |s|
      invariant escaped ==> i > 0 && s[i - 1] == '\\'
      invariant SplitRaw(s, delim) == Glue(out, cur, SplitRaw(s[if escaped then i - 1 else i..], delim))
    {
      var c := s[i];
      ghost var rest := SplitRaw(s[i + 1..], delim);
      SplitRawStep(s, if escaped then i - 1 else i, delim);
      if escaped {
        GlueMore(out, cur, ['\\', c], rest);
        cur := cur + ['\\', c];
        escaped := false;
      } else if c == '\\' {
        escaped := true;
      } else if c == delim {
        GlueNext(out, cur, rest);
        out, cur := out + [cur], "";
      } else {
        GlueMore(out, cur, [c], rest);
        cur := cur + [c];
      }
    }
    if escaped {
      SplitRawStep(s, |s| - 1, delim);
      cur := cur + ['\\'];
    } else {
      assert s[|s|..] == "" && cur + "" == cur;
    }
    out := out + [cur];
  }

  // ------------------------------------------------------------------ encoding

  /** A backslash before every character of `special`. */
  function EscapeWith(path: string, special: set<char>): string
  {
    if path == "" then ""
    else (if path[0] in special then ['\\', path[0]] else [path[0]]) + EscapeWith(path[1..], special)
  }

  /** What nails escapes in an overlay option, and what mount(8) needs escaped through fsconfig(2). */
  const OVERLAY_SPECIAL: set<char> := {'\\', ':', ','}
  const FSCONFIG_SPECIAL: set<char> := {'\\', ':'}

  /** `escape_overlay_path`: refused when the path holds a newline. */
  method EscapeOverlayPath(path: string) returns (r: Option<string>)
    ensures r.Some? <==> Free(path, '\n')
    ensures r.Some? ==> r.value == EscapeWith(path, OVERLAY_SPECIAL)
  {
    if '\n' in path {
      return None;
    }
    var out := "";
    for i := 0 to |path|
      invariant EscapeWith(path, OVERLAY_SPECIAL) == out + EscapeWith(path[i..], OVERLAY_SPECIAL)
    {
      assert path[i..][1..] == path[i + 1..];
      var piece := [path[i]];
      if path[i] == '\\' || path[i] == ':' || path[i] == ',' {
        piece := ['\\', path[i]];
      }
      Append(out, piece, EscapeWith(path[i + 1..], OVERLAY_SPECIAL));
      out := out + piece;
    }
    r := Some(out);
  }

  /** The kernel escapes a space, a tab, a newline and a backslash in a path, and a comma too in an option. */
  const PATH_SPECIAL: set<char> := {' ', '\t', '\n', '\\'}
  const OPTION_SPECIAL: set<char> := {',', ' ', '\t', '\n', '\\'}

  function OctalDigit(n: int): char
    requires 0 <= n < 8
  {
    ('0' as int + n) as char
  }

  /** A character as a backslash and three octal digits. */
  function Octal(c: char): (s: string)
    requires c as int < 128
    ensures |s| == 4 && StartsOctal(s) && OctalValue(s) == c as int
  {
    var n := c as int;
    ['\\', OctalDigit(n / 64), OctalDigit(n / 8 % 8), OctalDigit(n % 8)]
  }

  ghost predicate Ascii(special: set<char>)
  {
    forall c :: c in special ==> c as int < 128
  }

  /** `escape` of the kernel's printer. */
  function KernelEscape(text: string, special: set<char>): string
  {
    if text == "" then ""
    else
      (if text[0] as int < 128 && text[0] in special then Octal(text[0]) else [text[0]])
      + KernelEscape(text[1..], special)
  }

  // ------------------------------------------------------- what undoes what

  /** Decoding undoes the kernel's escaping. */
  lemma {:induction false} UnescapeKernel(text: string, special: set<char>)
    requires '\\' in special && Ascii(special)
    ensures Unescape(KernelEscape(text, special)) == text
  {
    if text != "" {
      UnescapeKernel(text[1..], special);
      var s, tail := KernelEscape(text, special), KernelEscape(text[1..], special);
      if text[0] in special {
        assert s == Octal(text[0]) + tail && s[4..] == tail;
        assert StartsOctal(s) && OctalValue(s) == text[0] as int;
      } else {
        assert s[1..] == tail;
      }
    }
  }

  /** So does the decoder that leaves the overlay escapes alone. */
  lemma {:induction false} UnescapeOctalKernel(text: string, special: set<char>)
    requires '\\' in special && Ascii(special)
    ensures UnescapeOctal(KernelEscape(text, special)) == text
  {
    if text != "" {
      UnescapeOctalKernel(text[1..], special);
      var s, tail := KernelEscape(text, special), KernelEscape(text[1..], special);
      if text[0] in special {
        assert s == Octal(text[0]) + tail && s[4..] == tail;
        assert StartsOctal(s) && OctalValue(s) == text[0] as int;
      } else {
        assert s[1..] == tail;
      }
    }
  }

  /** Unescaping undoes the overlay escaping, whatever else is escaped besides the backslash. */
  lemma {:induction false} UnescapeOverlayEscape(path: string, special: set<char>)
    requires '\\' in special
    ensures UnescapeOverlay(EscapeWith(path, special)) == path
  {
    if path != "" {
      UnescapeOverlayEscape(path[1..], special);
      var s, tail := EscapeWith(path, special), EscapeWith(path[1..], special);
      if path[0] in special {
        assert s[2..] == tail;
      } else {
        assert s[1..] == tail;
      }
    }
  }

  /** The full decoder undoes backslashes before anything but octal digits as well. */
  lemma {:induction false} UnescapePairs(path: string, special: set<char>)
    requires '\\' in special && forall c :: c in special ==> !IsOctal(c)
    ensures Unescape(EscapeWith(path, special)) == path
  {
    if path != "" {
      UnescapePairs(path[1..], special);
      var s, tail := EscapeWith(path, special), EscapeWith(path[1..], special);
      if path[0] in special {
        assert s[2..] == tail && s[1] == path[0];
      } else {
        assert s[1..] == tail;
      }
    }
  }

  const OCTAL_DIGITS := "01234567"

  /** The place of `c` among the octal digits is `n`. */
  ghost predicate IsOctalDigit(c: char, n: int)
  {
    0 <= n < 8 && OCTAL_DIGITS[n] == c
  }

  lemma OctalDigits(c: char)
    ensures IsOctal(c) <==> exists n :: IsOctalDigit(c, n)
    ensures forall n :: IsOctalDigit(c, n) ==> n == c as int - '0' as int
  {
    if IsOctal(c) {
      assert IsOctalDigit(c, c as int - '0' as int);
    }
  }

  /** Three octal digits that are a byte are that byte. */
  lemma OctalEscape(a: char, x: int, b: char, y: int, c: char, z: int, rest: string)
    requires IsOctalDigit(a, x) && IsOctalDigit(b, y) && IsOctalDigit(c, z) && x < 4
    ensures Unescape(['\\', a, b, c] + rest) == [(64 * x + 8 * y + z) as char] + Unescape(rest)
    ensures UnescapeOctal(['\\', a, b, c] + rest) == [(64 * x + 8 * y + z) as char] + UnescapeOctal(rest)
  {
    OctalDigits(a);
    OctalDigits(b);
    OctalDigits(c);
    assert (['\\', a, b, c] + rest)[4..] == rest;
  }

  /** What looks like an octal escape and is no byte, or has a character that is no octal digit, is a pair like any
  other. */
  lemma OddEscape(a: char, b: char, c: char, rest: string)
    requires (forall n :: !IsOctalDigit(a, n)) || (forall n :: !IsOctalDigit(b, n)) || (forall n :: !IsOctalDigit(c, n))
          || exists n :: IsOctalDigit(a, n) && n >= 4
    ensures Unescape(['\\', a, b, c] + rest) == [a] + Unescape([b, c] + rest)
    ensures UnescapeOctal(['\\', a, b, c] + rest) == ['\\', a] + UnescapeOctal([b, c] + rest)
  {
    OctalDigits(a);
    OctalDigits(b);
    OctalDigits(c);
    var s := ['\\', a, b, c] + rest;
    assert s[2..] == [b, c] + rest && s[..2] == ['\\', a];
  }

  /** A backslash at the end stays. */
  lemma OpenEscape()
    ensures Unescape("\\") == UnescapeOctal("\\") == UnescapeOverlay("\\") == "\\"
  {
    var open := "\\";
    assert open[1..] == "";
  }

  /** Every backslash is followed by something that is no octal digit. */
  ghost predicate NoOctal(s: string)
  {
    if s == "" then true
    else if s[0] == '\\' then |s| >= 2 && !IsOctal(s[1]) && NoOctal(s[2..])
    else NoOctal(s[1..])
  }

  lemma {:induction false} UnescapeOctalLeaves(s: string)
    requires NoOctal(s)
    ensures UnescapeOctal(s) == s
  {
    if s != "" {
      if s[0] == '\\' {
        UnescapeOctalLeaves(s[2..]);
        assert s == s[..2] + s[2..];
      } else {
        UnescapeOctalLeaves(s[1..]);
        assert s == [s[0]] + s[1..];
      }
    }
  }

  lemma {:induction false} NoOctalConcat(x: string, y: string)
    requires NoOctal(x) && NoOctal(y)
    ensures NoOctal(x + y)
  {
    if x == "" {
      assert x + y == y;
    } else if x[0] == '\\' {
      NoOctalConcat(x[2..], y);
      assert (x + y)[2..] == x[2..] + y;
    } else {
      NoOctalConcat(x[1..], y);
      assert (x + y)[1..] == x[1..] + y;
    }
  }

  lemma {:induction false} EscapeNoOctal(path: string, special: set<char>)
    requires '\\' in special && forall c :: c in special ==> !IsOctal(c)
    ensures NoOctal(EscapeWith(path, special))
  {
    if path != "" {
      EscapeNoOctal(path[1..], special);
      var s, tail := EscapeWith(path, special), EscapeWith(path[1..], special);
      if path[0] in special {
        assert s[2..] == tail;
      } else {
        assert s[1..] == tail;
      }
    }
  }

  // --------------------------------------------------------- cutting and joining

  /** No `delim` in sight of the cutter, and no escape left open at the end. */
  ghost predicate Whole(s: string, delim: char)
  {
    if s == "" then true
    else if s[0] == '\\' then |s| >= 2 && Whole(s[2..], delim)
    else s[0] != delim && Whole(s[1..], delim)
  }

  ghost predicate AllWhole(parts: seq<string>, delim: char)
  {
    forall i :: 0 <= i < |parts| ==> Whole(parts[i], delim)
  }

  lemma {:induction false} WholeConcat(x: string, y: string, delim: char)
    requires Whole(x, delim) && Whole(y, delim)
    ensures Whole(x + y, delim)
  {
    if x == "" {
      assert x + y == y;
    } else if x[0] == '\\' {
      WholeConcat(x[2..], y, delim);
      assert (x + y)[2..] == x[2..] + y;
    } else {
      WholeConcat(x[1..], y, delim);
      assert (x + y)[1..] == x[1..] + y;
    }
  }

  lemma {:induction false} PlainWhole(s: string, delim: char)
    requires Free(s, '\\') && Free(s, delim)
    ensures Whole(s, delim) && NoOctal(s)
  {
    if s != "" {
      PlainWhole(s[1..], delim);
    }
  }

  lemma {:induction false} EscapeWhole(path: string, special: set<char>, delim: char)
    requires '\\' in special && delim in special
    ensures Whole(EscapeWith(path, special), delim)
  {
    if path != "" {
      EscapeWhole(path[1..], special, delim);
      var s, tail := EscapeWith(path, special), EscapeWith(path[1..], special);
      if path[0] in special {
        assert s[2..] == tail;
      } else {
        assert s[1..] == tail;
      }
    }
  }

  lemma {:induction false} KernelWhole(text: string, special: set<char>, delim: char)
    requires '\\' in special && delim in special && Ascii(special) && !IsOctal(delim)
    ensures Whole(KernelEscape(text, special), delim)
  {
    if text != "" {
      KernelWhole(text[1..], special, delim);
      var s, tail := KernelEscape(text, special), KernelEscape(text[1..], special);
      if text[0] in special {
        assert s[4..] == tail && s[2..][1..] == s[3..] && s[3..][1..] == s[4..];
        assert Whole(s[3..], delim) && Whole(s[2..], delim);
      } else {
        assert s[1..] == tail;
      }
    }
  }

  lemma {:induction false} SplitRawWhole(s: string, delim: char)
    requires Whole(s, delim)
    ensures SplitRaw(s, delim) == [s]
  {
    if s != "" {
      if s[0] == '\\' {
        SplitRawWhole(s[2..], delim);
        assert s == s[..2] + s[2..];
      } else {
        SplitRawWhole(s[1..], delim);
        assert s == [s[0]] + s[1..];
      }
    }
  }

  lemma {:induction false} SplitRawFirst(head: string, delim: char, rest: string)
    requires Whole(head, delim) && delim != '\\'
    ensures SplitRaw(head + [delim] + rest, delim) == [head] + SplitRaw(rest, delim)
  {
    var s := head + [delim] + rest;
    if head == "" {
      assert s[1..] == rest;
    } else if head[0] == '\\' {
      SplitRawFirst(head[2..], delim, rest);
      assert s[2..] == head[2..] + [delim] + rest;
      assert s[..2] + head[2..] == head;
    } else {
      SplitRawFirst(head[1..], delim, rest);
      assert s[1..] == head[1..] + [delim] + rest;
      assert [s[0]] + head[1..] == head;
    }
  }

  /** Whole pieces come back from cutting their join. */
  lemma {:induction false} SplitRawJoin(parts: seq<string>, delim: char)
    requires parts != [] && AllWhole(parts, delim) && delim != '\\'
    ensures SplitRaw(Join(parts, [delim]), delim) == parts
  {
    if |parts| == 1 {
      SplitRawWhole(parts[0], delim);
    } else {
      var tail := parts[1..];
      var rest := Join(tail, [delim]);
      SplitRawJoin(tail, delim);
      SplitRawFirst(parts[0], delim, rest);
      assert Join(parts, [delim]) == parts[0] + [delim] + rest;
      assert parts == [parts[0]] + tail;
    }
  }

  /** As `Whole`, but for a backslash left open at the very end. */
  ghost predicate WholeOrOpen(s: string, delim: char)
  {
    Whole(s, delim) || (s != "" && s[|s| - 1] == '\\' && Whole(s[..|s| - 1], delim))
  }

  /** Pieces without a delimiter in sight, and only the last with an escape left open. */
  ghost predicate ProperlyCut(parts: seq<string>, delim: char)
  {
    && parts != [] && WholeOrOpen(parts[|parts| - 1], delim)
    && forall i :: 0 <= i < |parts| - 1 ==> Whole(parts[i], delim)
  }

  /** Whatever the text, its pieces hold no delimiter but escaped ones. */
  lemma {:induction false} SplitRawParts(s: string, delim: char)
    requires delim != '\\'
    ensures ProperlyCut(SplitRaw(s, delim), delim)
  {
    if s != "" {
      SplitRawStep(s, 0, delim);
      assert s[0..] == s;
      if s[0] != '\\' {
        SplitRawParts(s[1..], delim);
        if s[0] != delim {
          FirstLonger([s[0]], SplitRaw(s[1..], delim), delim);
        }
      } else if |s| == 1 {
        assert ['\\'][..0] == "";
      } else {
        SplitRawParts(s[2..], delim);
        FirstLonger(['\\', s[1]], SplitRaw(s[2..], delim), delim);
      }
    }
  }

  /** And they join to the text: it is cut at every other delimiter, and nothing is lost. */
  lemma {:induction false} SplitRawJoins(s: string, delim: char)
    ensures Join(SplitRaw(s, delim), [delim]) == s
  {
    if s != "" {
      SplitRawStep(s, 0, delim);
      assert s[0..] == s;
      if s[0] != '\\' {
        SplitRawJoins(s[1..], delim);
        FirstJoined([s[0]], s[1..], SplitRaw(s[1..], delim), delim);
        assert s == [s[0]] + s[1..];
      } else if |s| > 1 {
        SplitRawJoins(s[2..], delim);
        FirstJoined(['\\', s[1]], s[2..], SplitRaw(s[2..], delim), delim);
        assert s == ['\\', s[1]] + s[2..];
      }
    }
  }

  lemma FirstJoined(head: string, text: string, rest: seq<string>, delim: char)
    requires rest != [] && Join(rest, [delim]) == text
    ensures Join([head + rest[0]] + rest[1..], [delim]) == head + text
    ensures Join([""] + rest, [delim]) == [delim] + text
  {
    JoinLonger(head, rest, delim);
    assert ([""] + rest)[1..] == rest;
  }

  lemma JoinLonger(head: string, rest: seq<string>, delim: char)
    requires rest != []
    ensures Join([head + rest[0]] + rest[1..], [delim]) == head + Join(rest, [delim])
  {
    var longer := [head + rest[0]] + rest[1..];
    assert longer[1..] == rest[1..];
  }

  /** An unescaped character, or an escape, in front of the first piece. */
  ghost predicate Harmless(head: string, delim: char)
  {
    (|head| == 1 && head[0] != delim && head[0] != '\\') || (|head| == 2 && head[0] == '\\')
  }

  lemma FirstLonger(head: string, rest: seq<string>, delim: char)
    requires ProperlyCut(rest, delim) && Harmless(head, delim)
    ensures ProperlyCut([head + rest[0]] + rest[1..], delim)
  {
    HeadOnFirst(head, rest[0], delim);
  }

  lemma HeadOnFirst(head: string, first: string, delim: char)
    requires Harmless(head, delim)
    ensures Whole(first, delim) ==> Whole(head + first, delim)
    ensures WholeOrOpen(first, delim) ==> WholeOrOpen(head + first, delim)
  {
    var text := head + first;
    assert text[|head|..] == first;
    if first != "" {
      assert text[..|text| - 1] == head + first[..|first| - 1];
      assert text[..|text| - 1][|head|..] == first[..|first| - 1];
    }
  }

  /** Joining with some other plain separator keeps a text whole and free of octal escapes. */
  lemma {:induction false} JoinWhole(parts: seq<string>, sep: char, delim: char)
    requires sep != delim && sep != '\\'
    requires forall i :: 0 <= i < |parts| ==> Whole(parts[i], delim) && NoOctal(parts[i])
    ensures Whole(Join(parts, [sep]), delim) && NoOctal(Join(parts, [sep]))
  {
    if |parts| > 1 {
      var rest := Join(parts[1..], [sep]);
      JoinWhole(parts[1..], sep, delim);
      PlainWhole([sep], delim);
      WholeConcat(parts[0], [sep], delim);
      WholeConcat(parts[0] + [sep], rest, delim);
      NoOctalConcat(parts[0], [sep]);
      NoOctalConcat(parts[0] + [sep], rest);
    }
  }
}
