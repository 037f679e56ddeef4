/** Reading and printing the mount table (nails-teardown/src/mountinfo.rs, fuzz/src/kernel.rs). */
module MountInfo {
  import opened Basics
  import opened Texts
  import opened Escapes
  import opened Mounts
  import opened MountWalk
  import opened Overlay

  const SEPARATOR := "-"

  // ------------------------------------------------------------------- numbers

  const MIN_I32 := -0x8000_0000
  const MAX_I32 := 0x7fff_ffff

  function DigitOf(n: nat): char
    requires n < 10
  {
    ('0' as int + n) as char
  }

  function Digits(n: nat): (s: string)
    ensures |s| >= 1
  {
    if n < 10 then [DigitOf(n)] else Digits(n / 10) + [DigitOf(n % 10)]
  }

  function DecimalText(n: int): string
  {
    if n < 0 then "-" + Digits(-n) else Digits(n)
  }

  function DecimalValue(s: string): (n: int)
    requires AllDigits(s)
    ensures n >= 0
  {
    if s == "" then 0 else DecimalValue(s[..|s| - 1]) * 10 + (s[|s| - 1] as int - '0' as int)
  }

  /** `i32::from_str`: a sign, digits, and a value in range. */
  function ParseI32(s: string): Option<int>
  {
    var signed := s != "" && (s[0] == '-' || s[0] == '+');
    var digits := if signed then s[1..] else s;
    if digits == "" || !AllDigits(digits) then None
    else
      var n: int := if signed && s[0] == '-' then -DecimalValue(digits) else DecimalValue(digits);
      if MIN_I32 <= n <= MAX_I32 then Some(n) else None
  }

  lemma {:induction false} DigitsValue(n: nat)
    ensures AllDigits(Digits(n)) && DecimalValue(Digits(n)) == n
  {
    if n >= 10 {
      DigitsValue(n / 10);
      assert Digits(n)[..|Digits(n)| - 1] == Digits(n / 10);
    } else {
      assert Digits(n)[..0] == "";
    }
  }

  lemma ParsePrinted(n: int)
    requires MIN_I32 <= n <= MAX_I32
    ensures ParseI32(DecimalText(n)) == Some(n)
    ensures DecimalText(n) != SEPARATOR
  {
    var digits := Digits(if n < 0 then -n else n);
    DigitsValue(if n < 0 then -n else n);
    assert IsDigit(digits[0]);
    assert ("-" + digits)[1..] == digits && |"-" + digits| >= 2;
  }

  // ------------------------------------------------------------------- parsing

  /** The index of the first separator, or the number of tokens. */
  function Position(tokens: seq<string>): (i: nat)
    ensures i <= |tokens|
    ensures i < |tokens| ==> tokens[i] == SEPARATOR
    ensures forall j :: 0 <= j < i ==> tokens[j] != SEPARATOR
  {
    if tokens == [] || tokens[0] == SEPARATOR then 0
    else
      var i := Position(tokens[1..]);
      assert forall j :: 1 <= j < 1 + i ==> tokens[j] == tokens[1..][j - 1];
      1 + i
  }

  /** A parsed line from its tokens. */
  function EntryOf(tokens: seq<string>): Option<MountEntry>
  {
    var sep := Position(tokens);
    if sep == |tokens| || sep < 6 || sep + 3 >= |tokens| then None
    else
      var id, parent := ParseI32(tokens[0]), ParseI32(tokens[1]);
      if id.None? || parent.None? then None
      else
        Some(MountEntry(
               id.value, parent.value, tokens[2],
               PathFrom(Unescape(tokens[3])), PathFrom(Unescape(tokens[4])), tokens[5],
               tokens[sep + 1], PathFrom(Unescape(tokens[sep + 2])), tokens[sep + 3]))
  }

  /** `parse_line`. */
  function ParseLine(line: string): Option<MountEntry>
  {
    EntryOf(SplitOn(TrimStart(line), ' '))
  }

  /** Decimal digits, with nothing else around them. */
  ghost predicate IsNumeral(digits: string)
  {
    digits != "" && AllDigits(digits)
  }

  /** The text is the digits of `n` with at most one sign. */
  ghost predicate Spells(s: string, digits: string, n: int)
  {
    && IsNumeral(digits)
    && (|| (n == DecimalValue(digits) && (s == digits || s == "+" + digits))
        || (n == -DecimalValue(digits) && s == "-" + digits))
  }

  /** A number is read exactly from digits with at most one sign, if it fits 32 bits. */
  lemma ParseI32Exactly(s: string, n: int)
    ensures ParseI32(s) == Some(n) <==> -0x8000_0000 <= n <= 0x7fff_ffff && exists digits :: Spells(s, digits, n)
  {
    if ParseI32(s) == Some(n) {
      var signed := s[0] == '-' || s[0] == '+';
      var digits := if signed then s[1..] else s;
      assert s == if signed then [s[0]] + digits else digits;
      assert Spells(s, digits, n);
    }
    if digits :| Spells(s, digits, n) {
      assert IsDigit(digits[0]);
      assert ("+" + digits)[1..] == digits && ("-" + digits)[1..] == digits;
    }
  }

  /** The first token that is the separator is token `sep`. */
  ghost predicate SeparatorAt(tokens: seq<string>, sep: nat)
  {
    sep < |tokens| && tokens[sep] == "-" && forall j :: 0 <= j < sep ==> tokens[j] != "-"
  }

  /** A line is an entry exactly when its first two tokens are numbers, six or more stand before the separator and
  three or more after it; and then each field is its token. */
  lemma EntryExactlyWhen(tokens: seq<string>, e: MountEntry)
    ensures EntryOf(tokens) == Some(e) <==>
      exists sep: nat :: SeparatorAt(tokens, sep) && sep >= 6 && sep + 3 < |tokens|
        && ParseI32(tokens[0]) == Some(e.mountId) && ParseI32(tokens[1]) == Some(e.parentId)
        && e.dev == tokens[2] && e.root == PathFrom(Unescape(tokens[3]))
        && e.mountPoint == PathFrom(Unescape(tokens[4])) && e.mountOpts == tokens[5]
        && e.fstype == tokens[sep + 1] && e.source == PathFrom(Unescape(tokens[sep + 2]))
        && e.superOpts == tokens[sep + 3]
  {
    var first := Position(tokens);
    assert forall sep: nat :: SeparatorAt(tokens, sep) ==> sep == first;
    assert first < |tokens| ==> SeparatorAt(tokens, first);
  }

  /** The first line of `text` with its newline, and the rest. */
  function LineEnd(text: string): (i: nat)
    ensures i <= |text|
    ensures Free(text[..i], '\n')
    ensures i < |text| ==> text[i] == '\n'
  {
    if text == "" || text[0] == '\n' then 0
    else
      var i := LineEnd(text[1..]);
      assert text[..1 + i] == [text[0]] + text[1..][..i];
      1 + i
  }

  function StripReturn(line: string): string
  {
    if line != "" && line[|line| - 1] == '\r' then line[..|line| - 1] else line
  }

  /** `str::lines`: cut after every newline, which goes, with a carriage return right before it. */
  function Lines(text: string): seq<string>
    decreases |text|
  {
    var i := LineEnd(text);
    if text == "" then []
    else if i == |text| then [text]
    else [StripReturn(text[..i])] + Lines(text[i + 1..])
  }

  function ParseLines(lines: seq<string>): seq<MountEntry>
  {
    if lines == [] then []
    else
      var entry := ParseLine(lines[0]);
      (if entry.Some? then [entry.value] else []) + ParseLines(lines[1..])
  }

  /** `parse_mountinfo`: a malformed line is skipped. */
  function ParseMountinfo(content: string): seq<MountEntry>
  {
    ParseLines(Lines(content))
  }

  // ------------------------------------------------------------------ printing

  /** `before_separator`: escaped as any path, and so that it is never taken for the separator. */
  function BeforeSeparator(path: string): string
  {
    if path == SEPARATOR then "\\055" else KernelEscape(path, PATH_SPECIAL)
  }

  /** The fields of a line, with the kernel's optional fields before the separator. */
  function LineTokens(e: MountEntry, optional: seq<string>): seq<string>
  {
    HeadTokens(e) + optional + TailTokens(e)
  }

  function HeadTokens(e: MountEntry): seq<string>
  {
    [DecimalText(e.mountId), DecimalText(e.parentId), e.dev,
     BeforeSeparator(e.root.text), BeforeSeparator(e.mountPoint.text), e.mountOpts]
  }

  function TailTokens(e: MountEntry): seq<string>
  {
    [SEPARATOR, e.fstype, KernelEscape(e.source.text, PATH_SPECIAL), e.superOpts]
  }

  /** `mountinfo_line`, for an entry without optional fields. */
  function MountinfoLine(e: MountEntry, optional: seq<string>): string
  {
    Join(LineTokens(e, optional), " ")
  }

  // ---------------------------------------------------------------- round trip

  ghost predicate IsField(token: string)
  {
    Free(token, ' ') && token != SEPARATOR
  }

  /** An entry the kernel can print on one line: what it does not escape holds no space. */
  ghost predicate Printable(e: MountEntry)
  {
    && MIN_I32 <= e.mountId <= MAX_I32 && MIN_I32 <= e.parentId <= MAX_I32
    && IsField(e.dev) && IsField(e.mountOpts)
    && Free(e.fstype, ' ') && Free(e.superOpts, ' ')
    && e.root == PathFrom(e.root.text)
    && e.mountPoint == PathFrom(e.mountPoint.text)
    && e.source == PathFrom(e.source.text)
  }

  lemma {:induction false} KernelEscapeFree(text: string, special: set<char>, c: char)
    requires c in special && Ascii(special) && c != '\\' && !IsOctal(c)
    ensures Free(KernelEscape(text, special), c)
  {
    if text != "" {
      KernelEscapeFree(text[1..], special, c);
    }
  }

  lemma PathFieldBack(text: string)
    ensures Unescape(KernelEscape(text, PATH_SPECIAL)) == text
    ensures Unescape(BeforeSeparator(text)) == text
    ensures IsField(BeforeSeparator(text))
    ensures Free(KernelEscape(text, PATH_SPECIAL), ' ')
  {
    UnescapeKernel(text, PATH_SPECIAL);
    KernelEscapeFree(text, PATH_SPECIAL, ' ');
    if text == SEPARATOR {
      var s := "\\055";
      assert StartsOctal(s) && OctalValue(s) == '-' as int && s[4..] == "";
      assert Unescape(s) == ['-'] + Unescape("");
    }
  }

  lemma {:induction false} DigitsFree(n: nat, c: char)
    requires !IsDigit(c)
    ensures Free(Digits(n), c)
  {
    DigitsValue(n);
  }

  lemma NumberField(n: int)
    requires MIN_I32 <= n <= MAX_I32
    ensures IsField(DecimalText(n)) && !IsWhitespace(DecimalText(n)[0])
  {
    ParsePrinted(n);
    DigitsValue(if n < 0 then -n else n);
    DigitsFree(if n < 0 then -n else n, ' ');
    assert IsDigit(Digits(if n < 0 then -n else n)[0]);
  }

  lemma PositionIs(tokens: seq<string>, sep: nat)
    requires sep < |tokens| && tokens[sep] == SEPARATOR
    requires forall j :: 0 <= j < sep ==> tokens[j] != SEPARATOR
    ensures Position(tokens) == sep
  {
  }

  ghost predicate AllFields(tokens: seq<string>)
  {
    forall i :: 0 <= i < |tokens| ==> IsField(tokens[i])
  }

  lemma HeadFields(e: MountEntry)
    requires Printable(e)
    ensures AllFields(HeadTokens(e))
  {
    NumberField(e.mountId);
    NumberField(e.parentId);
    PathFieldBack(e.root.text);
    PathFieldBack(e.mountPoint.text);
  }

  lemma TailFree(e: MountEntry)
    requires Printable(e)
    ensures AllFree(TailTokens(e), ' ')
  {
    PathFieldBack(e.source.text);
  }

  lemma LineTokensFields(e: MountEntry, optional: seq<string>)
    requires Printable(e) && AllFields(optional)
    ensures AllFree(LineTokens(e, optional), ' ')
    ensures Position(LineTokens(e, optional)) == 6 + |optional|
  {
    HeadFields(e);
    TailFree(e);
    var head, tail := HeadTokens(e) + optional, TailTokens(e);
    assert AllFields(head);
    PositionIs(head + tail, |head|);
  }

  lemma TokensParse(e: MountEntry, optional: seq<string>)
    requires Printable(e) && AllFields(optional)
    ensures EntryOf(LineTokens(e, optional)) == Some(e)
  {
    LineTokensFields(e, optional);
    ParsePrinted(e.mountId);
    ParsePrinted(e.parentId);
    PathFieldBack(e.root.text);
    PathFieldBack(e.mountPoint.text);
    PathFieldBack(e.source.text);
    var tokens, sep := LineTokens(e, optional), 6 + |optional|;
    assert forall i :: 0 <= i < 6 ==> tokens[i] == HeadTokens(e)[i];
    assert forall i :: 0 <= i < 4 ==> tokens[sep + i] == TailTokens(e)[i];
  }

  lemma LineStart(e: MountEntry, optional: seq<string>)
    requires Printable(e)
    ensures TrimStart(MountinfoLine(e, optional)) == MountinfoLine(e, optional)
  {
    NumberField(e.mountId);
    var tokens := LineTokens(e, optional);
    assert Join(tokens, " ") == tokens[0] + " " + Join(tokens[1..], " ");
    assert MountinfoLine(e, optional)[0] == DecimalText(e.mountId)[0];
  }

  /** Parsing undoes printing, whatever optional fields the kernel adds. */
  lemma LineRoundTrip(e: MountEntry, optional: seq<string>)
    requires Printable(e) && AllFields(optional)
    ensures ParseLine(MountinfoLine(e, optional)) == Some(e)
  {
    LineStart(e, optional);
    LineTokensFields(e, optional);
    SplitJoin(LineTokens(e, optional), ' ');
    TokensParse(e, optional);
  }

  /** Whitespace in front of a line changes nothing. */
  lemma IndentedLineParses(left: string, e: MountEntry, optional: seq<string>)
    requires AllWhitespace(left) && Printable(e) && AllFields(optional)
    ensures ParseLine(left + MountinfoLine(e, optional)) == Some(e)
  {
    LineRoundTrip(e, optional);
    TrimStartPadded(left, MountinfoLine(e, optional));
  }

  // ----------------------------------------------------------- the whole table

  /** The fields the kernel prints as they are stay on their line. */
  ghost predicate OnOneLine(e: MountEntry)
  {
    Free(e.dev, '\n') && Free(e.mountOpts, '\n') && Free(e.fstype, '\n') && Free(e.superOpts, '\n')
  }

  function PrintTable(entries: seq<MountEntry>): string
  {
    if entries == [] then "" else MountinfoLine(entries[0], []) + "\n" + PrintTable(entries[1..])
  }

  lemma {:induction false} LineEndAt(line: string, rest: string)
    requires Free(line, '\n')
    ensures LineEnd(line + "\n" + rest) == |line|
  {
    var text := line + "\n" + rest;
    if line != "" {
      LineEndAt(line[1..], rest);
      assert text[1..] == line[1..] + "\n" + rest;
    }
  }

  lemma NumberFree(n: int)
    ensures Free(DecimalText(n), '\n')
  {
    DigitsFree(if n < 0 then -n else n, '\n');
  }

  lemma LineIsOneLine(e: MountEntry)
    requires OnOneLine(e)
    ensures Free(MountinfoLine(e, []), '\n')
  {
    NumberFree(e.mountId);
    NumberFree(e.parentId);
    KernelEscapeFree(e.root.text, PATH_SPECIAL, '\n');
    KernelEscapeFree(e.mountPoint.text, PATH_SPECIAL, '\n');
    KernelEscapeFree(e.source.text, PATH_SPECIAL, '\n');
    JoinFree(LineTokens(e, []), ' ', '\n');
  }

  lemma {:induction false} JoinLast(parts: seq<string>, sep: char)
    requires |parts| >= 2
    ensures Join(parts, [sep]) == Join(parts[..|parts| - 1], [sep]) + [sep] + parts[|parts| - 1]
  {
    if |parts| == 2 {
      assert Join(parts, [sep]) == parts[0] + [sep] + parts[1];
    } else {
      JoinLast(parts[1..], sep);
      assert parts[1..][..|parts| - 2] == parts[..|parts| - 1][1..];
    }
  }

  /** What is left of an entry on a line that ends in "\r\n": a trailing carriage return goes with the line end. */
  function LosesReturn(e: MountEntry): MountEntry
  {
    e.(superOpts := StripReturn(e.superOpts))
  }

  function AllLoseReturn(entries: seq<MountEntry>): (r: seq<MountEntry>)
    ensures |r| == |entries| && forall i :: 0 <= i < |r| ==> r[i] == LosesReturn(entries[i])
  {
    seq(|entries|, i requires 0 <= i < |entries| => LosesReturn(entries[i]))
  }

  lemma LineEndsWithOptions(e: MountEntry)
    ensures MountinfoLine(e, []) == Join(LineTokens(e, [])[..9], " ") + " " + e.superOpts
  {
    JoinLast(LineTokens(e, []), ' ');
  }

  lemma LineLosesReturn(e: MountEntry)
    ensures StripReturn(MountinfoLine(e, [])) == MountinfoLine(LosesReturn(e), [])
  {
    LineEndsWithOptions(e);
    LineEndsWithOptions(LosesReturn(e));
    assert LineTokens(e, [])[..9] == LineTokens(LosesReturn(e), [])[..9];
    var front := Join(LineTokens(e, [])[..9], " ") + " ";
    if e.superOpts != "" {
      var n := |e.superOpts| - 1;
      assert (front + e.superOpts)[..|front| + n] == front + e.superOpts[..n];
    }
  }

  ghost predicate AllPrintable(entries: seq<MountEntry>)
  {
    forall i :: 0 <= i < |entries| ==> Printable(entries[i]) && OnOneLine(entries[i])
  }

  /** A printed table parses to the table it was printed from, less the carriage returns that end a line. */
  lemma {:induction false} PrintedTableParses(entries: seq<MountEntry>)
    requires AllPrintable(entries)
    ensures ParseMountinfo(PrintTable(entries)) == AllLoseReturn(entries)
  {
    if entries != [] {
      PrintedTableParses(entries[1..]);
      PrintedLineParses(entries[0], PrintTable(entries[1..]));
    }
  }

  lemma PrintedLineParses(e: MountEntry, rest: string)
    requires Printable(e) && OnOneLine(e)
    ensures ParseMountinfo(MountinfoLine(e, []) + "\n" + rest) == [LosesReturn(e)] + ParseMountinfo(rest)
  {
    LineIsOneLine(e);
    FirstLine(MountinfoLine(e, []), rest);
    LineLosesReturn(e);
    LineRoundTrip(LosesReturn(e), []);
  }

  lemma FirstLine(line: string, rest: string)
    requires Free(line, '\n')
    ensures Lines(line + "\n" + rest) == [StripReturn(line)] + Lines(rest)
  {
    LineEndAt(line, rest);
    var text := line + "\n" + rest;
    assert text[..|line|] == line && text[|line| + 1..] == rest;
  }

  ghost predicate EndsInReturn(text: string)
  {
    text != "" && text[|text| - 1] == '\r'
  }

  /** A printed table parses to itself exactly when no entry's last field ends in a carriage return. */
  lemma TableRoundTripExactlyWhen(entries: seq<MountEntry>)
    requires AllPrintable(entries)
    ensures ParseMountinfo(PrintTable(entries)) == entries
       <==> forall i :: 0 <= i < |entries| ==> !EndsInReturn(entries[i].superOpts)
  {
    PrintedTableParses(entries);
    NoneLoseReturn(entries);
  }

  lemma NoneLoseReturn(entries: seq<MountEntry>)
    ensures AllLoseReturn(entries) == entries
       <==> forall i :: 0 <= i < |entries| ==> !EndsInReturn(entries[i].superOpts)
  {
  }

  // ------------------------------------------------ what parses can be printed

  lemma {:induction false} TrimStartFree(s: string, c: char)
    requires Free(s, c)
    ensures Free(TrimStart(s), c)
  {
    if s != "" && IsWhitespace(s[0]) {
      TrimStartFree(s[1..], c);
    }
  }

  /** Every entry of the parser is one the kernel could have printed. */
  lemma ParsedIsPrintable(line: string)
    requires Free(line, '\n') && ParseLine(line).Some?
    ensures Printable(ParseLine(line).value) && OnOneLine(ParseLine(line).value)
  {
    var tokens := SplitOn(TrimStart(line), ' ');
    TrimStartFree(line, '\n');
    SplitParts(TrimStart(line), ' ', '\n');
    assert tokens[2] != SEPARATOR && tokens[5] != SEPARATOR;
  }

  lemma {:induction false} LinesFree(text: string)
    ensures AllFree(Lines(text), '\n')
    decreases |text|
  {
    if text != "" {
      var i := LineEnd(text);
      if i == |text| {
        assert text[..i] == text;
      } else {
        LinesFree(text[i + 1..]);
      }
    }
  }

  lemma OneMorePrintable(e: MountEntry, rest: seq<MountEntry>)
    requires Printable(e) && OnOneLine(e) && AllPrintable(rest)
    ensures AllPrintable([e] + rest)
  {
  }

  lemma {:induction false} ParsedLinesPrintable(lines: seq<string>)
    requires AllFree(lines, '\n')
    ensures AllPrintable(ParseLines(lines))
  {
    if lines != [] {
      ParsedLinesPrintable(lines[1..]);
      if ParseLine(lines[0]).Some? {
        ParsedIsPrintable(lines[0]);
        OneMorePrintable(ParseLine(lines[0]).value, ParseLines(lines[1..]));
      }
    }
  }

  /** Whatever text was parsed, its entries printed and parsed again are the same, but for such returns. */
  lemma ReparseIsStableExactlyWhen(content: string, chosen: seq<MountEntry>)
    requires forall i :: 0 <= i < |chosen| ==> chosen[i] in ParseMountinfo(content)
    ensures ParseMountinfo(PrintTable(chosen)) == chosen
       <==> forall i :: 0 <= i < |chosen| ==> !EndsInReturn(chosen[i].superOpts)
  {
    forall i | 0 <= i < |chosen| ensures Printable(chosen[i]) && OnOneLine(chosen[i]) {
      ParsedEntryPrintable(content, chosen[i]);
    }
    TableRoundTripExactlyWhen(chosen);
  }

  lemma ParsedEntryPrintable(content: string, e: MountEntry)
    requires e in ParseMountinfo(content)
    ensures Printable(e) && OnOneLine(e)
  {
    LinesFree(content);
    ParsedLinesPrintable(Lines(content));
    var parsed := ParseMountinfo(content);
    var k :| 0 <= k < |parsed| && parsed[k] == e;
    assert Printable(parsed[k]) && OnOneLine(parsed[k]);
  }

  lemma OnlyLine(line: string)
    requires Free(line, '\n') && line != "" && ParseLine(line).Some?
    ensures ParseMountinfo(line) == [ParseLine(line).value]
  {
    assert LineEnd(line) == |line|;
    var lines := [line];
    assert Lines(line) == lines && lines[1..] == [];
    assert ParseLines(lines) == [ParseLine(line).value] + ParseLines([]);
  }

  /** An entry whose last field ends in a carriage return is read from a last line without a newline, and does not
  come back from a line with one. */
  lemma ReturnIsLost(e: MountEntry)
    requires Printable(e) && OnOneLine(e) && EndsInReturn(e.superOpts)
    ensures ParseMountinfo(MountinfoLine(e, [])) == [e] && ParseMountinfo(PrintTable([e])) != [e]
  {
    LineIsOneLine(e);
    LineRoundTrip(e, []);
    LineEndsWithOptions(e);
    OnlyLine(MountinfoLine(e, []));
    assert [e][0] == e;
    TableRoundTripExactlyWhen([e]);
  }

  const ENDS_IN_RETURN :=
    MountEntry(1, 0, "0:1", PathFrom("/"), PathFrom("/"), "rw", "tmpfs", PathFrom("tmpfs"), "rw\r")

  lemma EndsInReturnIsPrintable()
    ensures Printable(ENDS_IN_RETURN) && OnOneLine(ENDS_IN_RETURN) && EndsInReturn(ENDS_IN_RETURN.superOpts)
  {
  }

  lemma ReturnIsLostOnReparse()
    ensures var line := MountinfoLine(ENDS_IN_RETURN, []);
      ParseMountinfo(line) == [ENDS_IN_RETURN] && ParseMountinfo(PrintTable([ENDS_IN_RETURN])) != [ENDS_IN_RETURN]
  {
    EndsInReturnIsPrintable();
    ReturnIsLost(ENDS_IN_RETURN);
  }

  // ---------------------------------------------------------- the hidden session

  /** `root_is_hidden_overlay`: the upper layer of `/`, when it lies under the hidden root. */
  method RootIsHiddenOverlay(entries: seq<MountEntry>, hiddenRoot: Path) returns (r: Option<string>)
    ensures r == HiddenUpper(entries, hiddenRoot)
  {
    var root := TopMountAt(entries, ROOT);
    if root.None? || root.value.fstype != "overlay" {
      return None;
    }
    var opts := ParseOverlayOpts(root.value.superOpts);
    if opts.upperdir.None? {
      return None;
    }
    var upper := opts.upperdir.value;
    r := if hiddenRoot <= Components(upper) then Some(upper) else None;
  }

  function HiddenUpper(entries: seq<MountEntry>, hiddenRoot: Path): Option<string>
  {
    match Lookup(entries, ROOT)
    case None => None
    case Some(root) =>
      if root.fstype != "overlay" then None
      else
        match ParsedOpts(root.superOpts).upperdir
        case None => None
        case Some(upper) => if hiddenRoot <= Components(upper) then Some(upper) else None
  }

  /** Inside a session whose root the kernel shows as an overlay over `layers`, exactly the upper layer is
  named, whatever its path is made of, and only when it lies under the hidden root. */
  lemma SessionRootIsRecognised(
    entries: seq<MountEntry>, bottom: MountEntry, top: MountEntry, hiddenRoot: Path,
    form: Form, layers: OverlayOpts, before: seq<string>, after: seq<string>)
    requires UniqueIds(entries) && UniqueChildren(entries) && NamespaceRoot(entries, bottom)
    requires bottom.parentId != bottom.mountId
    requires KernelLookup(entries, bottom, ROOT, top) && top.mountPoint.components == ROOT
    requires top.fstype == "overlay" && layers.upperdir.Some?
    requires forall i :: 0 <= i < |layers.lowerdir| ==> layers.lowerdir[i] != ""
    requires AllUnrelated(before) && AllUnrelated(after)
    requires top.superOpts == Join(before + OptionTexts(form, layers) + after, ",")
    ensures HiddenUpper(entries, hiddenRoot)
         == if hiddenRoot <= Components(layers.upperdir.value) then layers.upperdir else None
  {
    LookupIsKernelLookup(entries, bottom, ROOT);
    assert Lookup(entries, ROOT) == Some(top);
    LayersRoundTrip(form, layers, before, after);
  }

  /** Any other filesystem on top of `/` is no hidden session. */
  lemma OtherRootIsNotRecognised(entries: seq<MountEntry>, bottom: MountEntry, top: MountEntry, hiddenRoot: Path)
    requires UniqueIds(entries) && UniqueChildren(entries) && NamespaceRoot(entries, bottom)
    requires bottom.parentId != bottom.mountId
    requires KernelLookup(entries, bottom, ROOT, top) && top.fstype != "overlay"
    ensures HiddenUpper(entries, hiddenRoot).None?
  {
    LookupIsKernelLookup(entries, bottom, ROOT);
    var found := Lookup(entries, ROOT);
    if found.Some? {
      KernelLookupUnique(entries, bottom, ROOT, top, found.value);
    }
  }

  /** In names: an upper directory is recognised exactly when its path is the hidden root's and then perhaps more. */
  lemma UpperIsRecognisedExactlyWhen(
    entries: seq<MountEntry>, bottom: MountEntry, top: MountEntry, hiddenRoot: seq<string>, upper: seq<string>,
    form: Form, layers: OverlayOpts, before: seq<string>, after: seq<string>)
    requires AllNames(hiddenRoot) && AllNames(upper) && layers.upperdir == Some(Absolute(upper))
    requires UniqueIds(entries) && UniqueChildren(entries) && NamespaceRoot(entries, bottom)
    requires bottom.parentId != bottom.mountId
    requires KernelLookup(entries, bottom, ROOT, top) && top.mountPoint.components == ROOT
    requires top.fstype == "overlay"
    requires forall i :: 0 <= i < |layers.lowerdir| ==> layers.lowerdir[i] != ""
    requires AllUnrelated(before) && AllUnrelated(after)
    requires top.superOpts == Join(before + OptionTexts(form, layers) + after, ",")
    ensures HiddenUpper(entries, Components(Absolute(hiddenRoot)))
         == if hiddenRoot <= upper then Some(Absolute(upper)) else None
  {
    var root := Components(Absolute(hiddenRoot));
    SessionRootIsRecognised(entries, bottom, top, root, form, layers, before, after);
    ComponentsOfNames(hiddenRoot);
    ComponentsOfNames(upper);
    PrefixOfNames(hiddenRoot, upper);
  }

  lemma PrefixOfNames(xs: seq<string>, ys: seq<string>)
    ensures ROOT + Normals(xs) <= ROOT + Normals(ys) <==> xs <= ys
  {
    if ROOT + Normals(xs) <= ROOT + Normals(ys) {
      forall i | 0 <= i < |xs| ensures xs[i] == ys[i] {
        assert (ROOT + Normals(xs))[i + 1] == (ROOT + Normals(ys))[i + 1];
      }
    }
  }
}
