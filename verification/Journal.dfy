/** Masking what changes from boot to boot in a journal message (nails-oracle/src/scan.rs). */
module Journal {
  import opened Texts

  predicate IsHexLetter(c: char)
  {
    'a' <= c <= 'f' || 'A' <= c <= 'F'
  }

  predicate IsHex(c: char)
  {
    IsDigit(c) || IsHexLetter(c)
  }

  predicate AllHex(s: string)
  {
    forall i :: 0 <= i < |s| ==> IsHex(s[i])
  }

  /** How many hexadecimal digits the text begins with. */
  function RunLength(s: string): (n: nat)
    ensures n <= |s| && AllHex(s[..n]) && (n < |s| ==> !IsHex(s[n]))
  {
    if s == "" || !IsHex(s[0]) then 0
    else
      var n := RunLength(s[1..]);
      assert s[..1 + n] == [s[0]] + s[1..][..n];
      1 + n
  }

  predicate HasDecimal(run: string)
  {
    exists i :: 0 <= i < |run| && IsDigit(run[i])
  }

  predicate HasHexLetter(run: string)
  {
    exists i :: 0 <= i < |run| && IsHexLetter(run[i])
  }

  /** A boot id, a machine id, a uuid, a hash. */
  predicate IsIdentifier(run: string)
  {
    |run| >= 8 && HasDecimal(run) && HasHexLetter(run)
  }

  /** A process id, a size, a duration. */
  predicate IsNumber(run: string)
  {
    HasDecimal(run) && !HasHexLetter(run)
  }

  function MaskRun(run: string): string
  {
    if IsIdentifier(run) then "X" else if IsNumber(run) then "N" else run
  }

  function Normalize(body: string): string
  {
    var n := RunLength(body);
    if body == "" then ""
    else if n == 0 then [body[0]] + Normalize(body[1..])
    else MaskRun(body[..n]) + Normalize(body[n..])
  }

  /** `normalize_journal_body`. */
  method NormalizeJournalBody(body: string) returns (out: string)
    ensures out == Normalize(body)
  {
    out := "";
    var rest := body;
    while rest != ""
      invariant Normalize(body) == out + Normalize(rest)
      decreases |rest|
    {
      var n := RunLength(rest);
      var piece, width := [rest[0]], 1;
      if n > 0 {
        piece, width := MaskRun(rest[..n]), n;
      }
      Append(out, piece, Normalize(rest[width..]));
      out := out + piece;
      rest := rest[width..];
    }
  }

  // ------------------------------------------------------------------------ tokens

  /** A message is a string of maximal runs of hexadecimal digits and other characters. */
  datatype Token = Run(text: string) | Other(c: char)

  function Tokens(body: string): seq<Token>
  {
    var n := RunLength(body);
    if body == "" then []
    else if n == 0 then [Other(body[0])] + Tokens(body[1..])
    else [Run(body[..n])] + Tokens(body[n..])
  }

  function Text(token: Token): string
  {
    if token.Run? then token.text else [token.c]
  }

  function Render(tokens: seq<Token>): string
  {
    if tokens == [] then "" else Text(tokens[0]) + Render(tokens[1..])
  }

  /** What normalising leaves of a token. */
  function Blur(token: Token): Token
  {
    if token.Other? then token
    else if IsIdentifier(token.text) then Other('X')
    else if IsNumber(token.text) then Other('N')
    else token
  }

  function BlurAll(tokens: seq<Token>): (r: seq<Token>)
    ensures |r| == |tokens| && forall i :: 0 <= i < |r| ==> r[i] == Blur(tokens[i])
  {
    seq(|tokens|, i requires 0 <= i < |tokens| => Blur(tokens[i]))
  }

  lemma BlurHead(token: Token, rest: seq<Token>)
    ensures BlurAll([token] + rest) == [Blur(token)] + BlurAll(rest)
  {
  }

  /** Normalising is blurring token by token. */
  lemma {:induction false} NormalizeIsBlur(body: string)
    ensures Normalize(body) == Render(BlurAll(Tokens(body)))
  {
    var n := RunLength(body);
    if body != "" {
      var width := if n == 0 then 1 else n;
      var token := if n == 0 then Other(body[0]) else Run(body[..n]);
      NormalizeIsBlur(body[width..]);
      BlurHead(token, Tokens(body[width..]));
      assert ([Blur(token)] + BlurAll(Tokens(body[width..])))[1..] == BlurAll(Tokens(body[width..]));
    }
  }

  lemma {:induction false} RunLengthOf(run: string, rest: string)
    requires AllHex(run) && (rest == "" || !IsHex(rest[0]))
    ensures RunLength(run + rest) == |run|
  {
    if run == "" {
      assert run + rest == rest;
    } else {
      RunLengthOf(run[1..], rest);
      assert (run + rest)[1..] == run[1..] + rest;
    }
  }

  /** Text that does not begin with a hexadecimal digit still does not once it is normalised. */
  lemma NormalizeStart(body: string)
    requires body == "" || !IsHex(body[0])
    ensures Normalize(body) == "" || !IsHex(Normalize(body)[0])
  {
  }

  lemma TokensOther(c: char, rest: string)
    requires !IsHex(c)
    ensures Tokens([c] + rest) == [Other(c)] + Tokens(rest)
  {
    assert ([c] + rest)[1..] == rest;
  }

  lemma TokensRun(run: string, rest: string)
    requires run != "" && AllHex(run) && (rest == "" || !IsHex(rest[0]))
    ensures Tokens(run + rest) == [Run(run)] + Tokens(rest)
  {
    RunLengthOf(run, rest);
    assert (run + rest)[..|run|] == run && (run + rest)[|run|..] == rest;
  }

  /** Reading a normalised message again finds the blurred tokens: no run is lost, joined or invented. */
  lemma {:induction false} TokensOfNormalized(body: string)
    ensures Tokens(Normalize(body)) == BlurAll(Tokens(body))
  {
    var n := RunLength(body);
    if body != "" {
      var width := if n == 0 then 1 else n;
      var token := if n == 0 then Other(body[0]) else Run(body[..n]);
      var rest := body[width..];
      TokensOfNormalized(rest);
      BlurHead(token, Tokens(rest));
      if Blur(token).Other? {
        TokensOther(Blur(token).c, Normalize(rest));
      } else {
        NormalizeStart(rest);
        TokensRun(body[..n], Normalize(rest));
      }
    }
  }

  lemma BlurTwice(tokens: seq<Token>)
    ensures BlurAll(BlurAll(tokens)) == BlurAll(tokens)
  {
    forall i | 0 <= i < |tokens| ensures Blur(Blur(tokens[i])) == Blur(tokens[i]) {
    }
  }

  /** Normalising twice changes nothing more. */
  lemma NormalizeIdempotent(body: string)
    ensures Normalize(Normalize(body)) == Normalize(body)
  {
    NormalizeIsBlur(body);
    NormalizeIsBlur(Normalize(body));
    TokensOfNormalized(body);
    BlurTwice(Tokens(body));
  }

  lemma {:induction false} NormalizeNeverLengthens(body: string)
    ensures |Normalize(body)| <= |body|
  {
    if body != "" {
      var n := RunLength(body);
      NormalizeNeverLengthens(body[if n == 0 then 1 else n..]);
    }
  }

  /** Two messages normalise alike exactly when they agree token by token once blurred. */
  lemma AlikeExactlyWhen(a: string, b: string)
    ensures Normalize(a) == Normalize(b) <==> BlurAll(Tokens(a)) == BlurAll(Tokens(b))
  {
    NormalizeIsBlur(a);
    NormalizeIsBlur(b);
    TokensOfNormalized(a);
    TokensOfNormalized(b);
  }

  // ------------------------------------------------------------------ what becomes of a run

  const DECIMALS := "0123456789"
  const HEX_LETTERS := "abcdefABCDEF"

  /** A string of hexadecimal digits. */
  ghost predicate IsHexRun(run: string)
  {
    run != "" && forall i :: 0 <= i < |run| ==> run[i] in DECIMALS || run[i] in HEX_LETTERS
  }

  /** What the run is replaced with: `X` for eight and more with both kinds of digits, `N` for decimals only. */
  ghost function Masked(run: string): string
  {
    if (forall i :: 0 <= i < |run| ==> run[i] in DECIMALS) then "N"
    else if |run| >= 8 && exists i :: 0 <= i < |run| && run[i] in DECIMALS then "X"
    else run
  }

  lemma HexCharacters(c: char)
    ensures IsDigit(c) <==> c in DECIMALS
    ensures IsHexLetter(c) <==> c in HEX_LETTERS
  {
    assert IsDigit(c) ==> c == DECIMALS[c as int - '0' as int];
    assert 'a' <= c <= 'f' ==> c == HEX_LETTERS[c as int - 'a' as int];
    assert 'A' <= c <= 'F' ==> c == HEX_LETTERS[6 + (c as int - 'A' as int)];
  }

  lemma MaskedRun(run: string)
    requires IsHexRun(run)
    ensures AllHex(run) && MaskRun(run) == Masked(run)
  {
    forall i | 0 <= i < |run|
      ensures IsDigit(run[i]) <==> run[i] in DECIMALS
      ensures IsHexLetter(run[i]) <==> run[i] in HEX_LETTERS
      ensures IsHex(run[i])
    {
      HexCharacters(run[i]);
    }
    assert IsHex(run[0]);
  }

  lemma NormalizeOther(c: char, rest: string)
    requires !IsHex(c)
    ensures Normalize([c] + rest) == [c] + Normalize(rest)
  {
    assert ([c] + rest)[1..] == rest;
  }

  lemma NormalizeRun(run: string, rest: string)
    requires run != "" && AllHex(run) && (rest == "" || !IsHex(rest[0]))
    ensures Normalize(run + rest) == MaskRun(run) + Normalize(rest)
  {
    RunLengthOf(run, rest);
    assert (run + rest)[..|run|] == run && (run + rest)[|run|..] == rest;
  }

  lemma Regroup(x: string, y: string, z: string)
    ensures x + (y + z) == x + y + z
  {
  }

  /** Text that no run goes across is normalised piece by piece. */
  lemma {:induction false} NormalizeConcat(before: string, after: string)
    requires before == "" || !IsHex(before[|before| - 1])
    ensures Normalize(before + after) == Normalize(before) + Normalize(after)
    decreases |before|
  {
    var n := RunLength(before);
    if before == "" {
      assert before + after == after;
    } else {
      var width := if n == 0 then 1 else n;
      var head, rest := before[..width], before[width..];
      assert before == head + rest && before[|before| - 1] == if rest == "" then head[|head| - 1] else rest[|rest| - 1];
      assert n > 0 ==> rest != "";
      Regroup(head, rest, after);
      NormalizeConcat(rest, after);
      if n == 0 {
        NormalizeOther(before[0], rest);
        NormalizeOther(before[0], rest + after);
      } else {
        NormalizeRun(head, rest);
        NormalizeRun(head, rest + after);
      }
      Regroup(if n == 0 then head else MaskRun(head), Normalize(rest), Normalize(after));
    }
  }

  /** In the middle of any text, a run of hexadecimal digits that nothing else continues is masked, and the text on
  both sides is normalised on its own. */
  lemma RunIsMasked(before: string, run: string, after: string)
    requires IsHexRun(run)
    requires before == "" || !(before[|before| - 1] in DECIMALS || before[|before| - 1] in HEX_LETTERS)
    requires after == "" || !(after[0] in DECIMALS || after[0] in HEX_LETTERS)
    ensures Normalize(before + run + after) == Normalize(before) + Masked(run) + Normalize(after)
  {
    MaskedRun(run);
    if before != "" {
      HexCharacters(before[|before| - 1]);
    }
    if after != "" {
      HexCharacters(after[0]);
    }
    Regroup(before, run, after);
    NormalizeConcat(before, run + after);
    NormalizeRun(run, after);
    Regroup(Normalize(before), Masked(run), Normalize(after));
  }

  /** Text without hexadecimal digits stays as it is. */
  lemma {:induction false} OthersStay(text: string)
    requires forall i :: 0 <= i < |text| ==> !(text[i] in DECIMALS || text[i] in HEX_LETTERS)
    ensures Normalize(text) == text
  {
    if text != "" {
      HexCharacters(text[0]);
      OthersStay(text[1..]);
      assert text == [text[0]] + text[1..];
    }
  }

  // --------------------------------------------------------------- what stands out

  /** Two tokens differ in nothing but the digits of an identifier or of a number. */
  ghost predicate SameButDigits(s: Token, t: Token)
  {
    || s == t
    || (s.Run? && t.Run? && IsIdentifier(s.text) && IsIdentifier(t.text))
    || (s.Run? && t.Run? && IsNumber(s.text) && IsNumber(t.text))
  }

  ghost predicate AllSameButDigits(ss: seq<Token>, ts: seq<Token>)
  {
    |ss| == |ts| && forall i :: 0 <= i < |ss| ==> SameButDigits(ss[i], ts[i])
  }

  lemma {:induction false} TokensKeepFree(body: string, c: char)
    requires Free(body, c)
    ensures forall i :: 0 <= i < |Tokens(body)| && Tokens(body)[i].Other? ==> Tokens(body)[i].c != c
  {
    if body != "" {
      var n := RunLength(body);
      TokensKeepFree(body[if n == 0 then 1 else n..], c);
    }
  }

  /** A mask letter spelled out in one message, where the other has something that is masked by it. */
  ghost predicate Clash(s: Token, t: Token)
  {
    t.Run? && ((s == Other('X') && IsIdentifier(t.text)) || (s == Other('N') && IsNumber(t.text)))
  }

  /** Two messages collapse onto one another exactly when, token by token, they differ in nothing but the digits of
  identifiers and numbers, or spell out a mask letter where the other has what it masks. */
  lemma CollapseExactlyWhen(a: string, b: string)
    ensures var s, t := Tokens(a), Tokens(b);
      Normalize(a) == Normalize(b) <==>
        |s| == |t| && forall i :: 0 <= i < |s| ==> SameButDigits(s[i], t[i]) || Clash(s[i], t[i]) || Clash(t[i], s[i])
  {
    AlikeExactlyWhen(a, b);
    var s, t := Tokens(a), Tokens(b);
    if |s| == |t| {
      forall i | 0 <= i < |s|
        ensures BlurAll(s)[i] == BlurAll(t)[i]
           <==> SameButDigits(s[i], t[i]) || Clash(s[i], t[i]) || Clash(t[i], s[i])
      {
        BlurApart(s[i], t[i]);
      }
    }
  }

  lemma BlurApart(s: Token, t: Token)
    ensures Blur(s) == Blur(t) <==> SameButDigits(s, t) || Clash(s, t) || Clash(t, s)
  {
  }

  /** A difference in digits alone always collapses; and where no mask letter is spelled out, nothing else does:
  every other difference stands out. */
  lemma OnlyDigitsCollapse(a: string, b: string)
    ensures AllSameButDigits(Tokens(a), Tokens(b)) ==> Normalize(a) == Normalize(b)
    ensures Free(a, 'X') && Free(a, 'N') && Free(b, 'X') && Free(b, 'N') && Normalize(a) == Normalize(b) ==>
      AllSameButDigits(Tokens(a), Tokens(b))
  {
    CollapseExactlyWhen(a, b);
    if Free(a, 'X') && Free(a, 'N') && Free(b, 'X') && Free(b, 'N') {
      TokensKeepFree(a, 'X');
      TokensKeepFree(a, 'N');
      TokensKeepFree(b, 'X');
      TokensKeepFree(b, 'N');
    }
  }

  /** A message that spells out the mask letter is taken for one with an identifier in that place. */
  lemma MaskLetterCollides()
    ensures Normalize("X") == Normalize("0000000a")
  {
    var id := "0000000a";
    assert IsDigit(id[0]) && IsHexLetter(id[7]);
    RunLengthOf(id, "");
    assert id + "" == id && id[..8] == id && id[8..] == "";
    assert "X"[1..] == "";
  }
}
