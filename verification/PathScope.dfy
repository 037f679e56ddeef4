/** Which paths an exemption covers, and how broad a path may be (nails-oracle/src/verdict.rs). */
module PathScope {
  import opened Basics
  import opened Texts

  function TrimSlashes(path: string): string
  {
    if path != "" && path[|path| - 1] == '/' then TrimSlashes(path[..|path| - 1]) else path
  }

  predicate IsAbsolute(path: string)
  {
    path != "" && path[0] == '/'
  }

  /** `path_covers`: equal, or an ancestor directory. */
  predicate PathCovers(pat: string, p: string)
  {
    || pat == p
    || (IsAbsolute(pat) && IsAbsolute(p) && Under(TrimSlashes(pat), p))
  }

  /** `p` is `dir`, a slash and something. */
  predicate Under(dir: string, p: string)
  {
    |p| > |dir| && p[|dir|] == '/' && p[..|dir|] == dir
  }

  // ------------------------------------------------------------------ transitivity

  lemma {:induction false} TrimSlashesEnd(path: string)
    ensures TrimSlashes(path) <= path
    ensures TrimSlashes(path) == "" || TrimSlashes(path)[|TrimSlashes(path)| - 1] != '/'
    ensures forall i :: |TrimSlashes(path)| <= i < |path| ==> path[i] == '/'
  {
    if path != "" && path[|path| - 1] == '/' {
      TrimSlashesEnd(path[..|path| - 1]);
    }
  }

  /** What lies under a directory under `a` lies under `a`. */
  lemma UnderTransitive(a: string, b: string, c: string)
    requires a == "" || a[|a| - 1] != '/'
    requires Under(a, b) && Under(TrimSlashes(b), c)
    ensures Under(a, c)
  {
    var dir := TrimSlashes(b);
    TrimSlashesEnd(b);
    assert a != "" ==> a[|a| - 1] == b[|a| - 1];
    assert |dir| >= |a|;
    assert dir[..|a|] == a;
    if |dir| > |a| {
      assert c[..|dir|] == dir;
      assert c[..|a|] == dir[..|a|];
      assert c[|a|] == dir[|a|] == b[|a|];
    }
  }

  /** Covering is transitive. */
  lemma PathCoversTransitive(a: string, b: string, c: string)
    requires PathCovers(a, b) && PathCovers(b, c)
    ensures PathCovers(a, c)
  {
    if a != b && b != c {
      TrimSlashesEnd(a);
      UnderTransitive(TrimSlashes(a), b, c);
    }
  }

  // ---------------------------------------------------------------------- segments

  function NonEmpty(parts: seq<string>): seq<string>
  {
    if parts == [] then [] else (if parts[0] == "" then [] else [parts[0]]) + NonEmpty(parts[1..])
  }

  /** The parts of a path between its slashes. */
  function Segments(path: string): seq<string>
  {
    NonEmpty(SplitOn(path, '/'))
  }

  lemma Associative(xs: seq<string>, ys: seq<string>, zs: seq<string>)
    ensures xs + (ys + zs) == xs + ys + zs
  {
  }

  lemma PrependToFirst(c: char, xs: seq<string>, ys: seq<string>)
    requires xs != []
    ensures [[c] + (xs + ys)[0]] + (xs + ys)[1..] == [[c] + xs[0]] + xs[1..] + ys
    ensures [""] + (xs + ys) == [""] + xs + ys
  {
    assert (xs + ys)[1..] == xs[1..] + ys;
  }

  lemma {:induction false} NonEmptyConcat(xs: seq<string>, ys: seq<string>)
    ensures NonEmpty(xs + ys) == NonEmpty(xs) + NonEmpty(ys)
  {
    if xs == [] {
      assert xs + ys == ys;
    } else {
      NonEmptyConcat(xs[1..], ys);
      assert (xs + ys)[1..] == xs[1..] + ys;
      Associative(if xs[0] == "" then [] else [xs[0]], NonEmpty(xs[1..]), NonEmpty(ys));
    }
  }

  lemma {:induction false} SplitAtSlash(x: string, y: string)
    ensures SplitOn(x + "/" + y, '/') == SplitOn(x, '/') + SplitOn(y, '/')
  {
    var text := x + "/" + y;
    if x == "" {
      assert text[1..] == y;
    } else {
      SplitAtSlash(x[1..], y);
      assert text[1..] == x[1..] + "/" + y;
      PrependToFirst(x[0], SplitOn(x[1..], '/'), SplitOn(y, '/'));
    }
  }

  lemma SegmentsBeyond(x: string, y: string)
    ensures Segments(x + "/" + y) == Segments(x) + Segments(y)
  {
    SplitAtSlash(x, y);
    NonEmptyConcat(SplitOn(x, '/'), SplitOn(y, '/'));
  }

  lemma {:induction false} SegmentsOfTrimmed(path: string)
    ensures Segments(TrimSlashes(path)) == Segments(path)
  {
    if path != "" && path[|path| - 1] == '/' {
      var shorter := path[..|path| - 1];
      SegmentsOfTrimmed(shorter);
      SegmentsBeyond(shorter, "");
      assert path == shorter + "/" + "";
      assert SplitOn("", '/') == [""] && NonEmpty([""]) == [];
    }
  }

  /** A covered path begins with the segments of the path that covers it. */
  lemma CoveredSegments(pat: string, p: string)
    requires PathCovers(pat, p)
    ensures Segments(pat) <= Segments(p)
  {
    if pat != p {
      var dir := TrimSlashes(pat);
      SegmentsOfTrimmed(pat);
      assert p == dir + "/" + p[|dir| + 1..];
      SegmentsBeyond(dir, p[|dir| + 1..]);
    }
  }

  // ------------------------------------------------------------------ coverage, exactly

  /** What can stand between two slashes. */
  ghost predicate AreSegments(parts: seq<string>)
  {
    forall i :: 0 <= i < |parts| ==> parts[i] != "" && Free(parts[i], '/')
  }

  ghost function Slashes(n: nat): (s: string)
    ensures |s| == n && forall i :: 0 <= i < n ==> s[i] == '/'
  {
    seq(n, _ => '/')
  }

  lemma {:induction false} AllNonEmpty(parts: seq<string>)
    requires AreSegments(parts)
    ensures NonEmpty(parts) == parts
  {
    if parts != [] {
      AllNonEmpty(parts[1..]);
      assert parts == [parts[0]] + parts[1..];
    }
  }

  lemma SegmentsOfAbsolute(parts: seq<string>)
    requires AreSegments(parts)
    ensures Segments(Absolute(parts)) == parts
  {
    var joined := Join(parts, "/");
    assert Absolute(parts) == "" + "/" + joined;
    SegmentsBeyond("", joined);
    assert SplitOn("", '/') == [""] && NonEmpty([""]) == [];
    AllNonEmpty(parts);
    if parts != [] {
      SplitJoin(parts, '/');
    }
  }

  lemma {:induction false} JoinEnds(parts: seq<string>)
    requires AreSegments(parts) && parts != []
    ensures var text := Join(parts, "/"); text != "" && text[|text| - 1] != '/'
  {
    if |parts| > 1 {
      JoinEnds(parts[1..]);
    }
  }

  lemma {:induction false} TrimmedAbsolute(parts: seq<string>, n: nat)
    requires AreSegments(parts)
    ensures TrimSlashes(Absolute(parts) + Slashes(n)) == if parts == [] then "" else Absolute(parts)
  {
    var path := Absolute(parts) + Slashes(n);
    if n > 0 {
      TrimmedAbsolute(parts, n - 1);
      assert path[..|path| - 1] == Absolute(parts) + Slashes(n - 1);
    } else {
      assert path == Absolute(parts);
      if parts != [] {
        JoinEnds(parts);
      } else {
        assert path == "/" && path[..0] == "";
      }
    }
  }

  lemma SegmentsOfPath(parts: seq<string>, n: nat)
    requires AreSegments(parts)
    ensures Segments(Absolute(parts) + Slashes(n)) == parts
  {
    SegmentsOfTrimmed(Absolute(parts) + Slashes(n));
    TrimmedAbsolute(parts, n);
    SegmentsOfAbsolute(parts);
    assert SplitOn("", '/') == [""] && NonEmpty([""]) == [];
  }

  /** A path covers another exactly when its parts are the first of the other's, except that a path with a slash at
  the end does not cover the same path without one. */
  lemma CoversExactlyWhen(xs: seq<string>, m: nat, ys: seq<string>, n: nat)
    requires AreSegments(xs) && AreSegments(ys)
    ensures PathCovers(Absolute(xs) + Slashes(m), Absolute(ys) + Slashes(n))
       <==> xs <= ys && (|xs| < |ys| || xs == [] || m == 0 || n > 0)
  {
    var pat, p := Absolute(xs) + Slashes(m), Absolute(ys) + Slashes(n);
    TrimmedAbsolute(xs, m);
    if PathCovers(pat, p) {
      CoveredSegments(pat, p);
      SegmentsOfPath(xs, m);
      SegmentsOfPath(ys, n);
      assert xs == ys ==> |pat| - m == |p| - n;
    }
    if xs <= ys {
      BelowIsUnder(xs, ys, n);
      assert m == 0 && n == 0 && xs == ys ==> pat == p;
    }
  }

  lemma BelowIsUnder(xs: seq<string>, ys: seq<string>, n: nat)
    requires xs <= ys && AreSegments(ys)
    ensures xs != [] && (|xs| < |ys| || n > 0) ==> Under(Absolute(xs), Absolute(ys) + Slashes(n))
  {
    var dir, p := Absolute(xs), Absolute(ys) + Slashes(n);
    if xs != [] && |xs| < |ys| {
      var rest := ys[|xs|..];
      assert ys == xs + rest;
      JoinTwo(xs, rest, "/");
      assert p == dir + "/" + (Join(rest, "/") + Slashes(n));
    } else if xs != [] && n > 0 {
      assert xs == ys;
    }
  }

  // ----------------------------------------------------------------------- breadth

  datatype Reason =
    | EmptyPath
    | GlobWildcards
    | WholeTopLevel
    | WholeSubtree
    | EmptyCitation
    | FeatureWithoutValue
    | UnknownAnchor
    | UnknownRow
    | OutsideChannel
    | NoExactValue

  /** Directories too broad to exempt even two levels deep. */
  const SYSTEM_ROOTS: seq<string> := [
    "var", "nix", "run", "usr", "etc", "lib", "lib64", "opt", "srv", "boot", "sys", "proc", "dev", "tmp",
    "home", "root", "mnt", "media"]

  const WILDCARDS := "*?[]{}"

  /** `breadth_reason`: why a path is too broad to exempt, if it is. */
  function BreadthReason(path: string): Option<Reason>
  {
    var segs := Segments(path);
    if path == "" then Some(EmptyPath)
    else if exists i :: 0 <= i < |path| && path[i] in WILDCARDS then Some(GlobWildcards)
    else if path[0] != '/' then None
    else if |segs| < 2 then Some(WholeTopLevel)
    else if |segs| < 3 && segs[0] in SYSTEM_ROOTS then Some(WholeSubtree)
    else None
  }

  /** A path that names something specific: two segments deep, and three below a system root. */
  ghost predicate Specific(path: string)
  {
    IsAbsolute(path) ==>
      |Segments(path)| >= 2 && (Segments(path)[0] in SYSTEM_ROOTS ==> |Segments(path)| >= 3)
  }

  ghost predicate IsSystemRoot(name: string)
  {
    || name == "var" || name == "nix" || name == "run" || name == "usr" || name == "etc" || name == "lib"
    || name == "lib64" || name == "opt" || name == "srv" || name == "boot" || name == "sys" || name == "proc"
    || name == "dev" || name == "tmp" || name == "home" || name == "root" || name == "mnt" || name == "media"
  }

  ghost predicate IsWildcard(c: char)
  {
    c == '*' || c == '?' || c == '[' || c == ']' || c == '{' || c == '}'
  }

  /** A path without wildcards is narrow enough exactly when it has two parts, three below a system root; a word that
  is no path always is. */
  lemma NarrowExactlyWhen(parts: seq<string>, n: nat)
    requires AreSegments(parts)
    ensures var path := Absolute(parts) + Slashes(n);
      BreadthReason(path).None? <==>
        && (forall i :: 0 <= i < |path| ==> !IsWildcard(path[i]))
        && |parts| >= 2 && (IsSystemRoot(parts[0]) ==> |parts| >= 3)
  {
    var path := Absolute(parts) + Slashes(n);
    SegmentsOfPath(parts, n);
    forall c ensures c in WILDCARDS <==> IsWildcard(c) {
    }
    if parts != [] {
      SystemRoots(parts[0]);
    }
  }

  lemma SystemRoots(name: string)
    ensures name in SYSTEM_ROOTS <==> IsSystemRoot(name)
  {
    assert forall i :: 0 <= i < |SYSTEM_ROOTS| ==> IsSystemRoot(SYSTEM_ROOTS[i]);
  }

  lemma WordsAreNarrow(word: string)
    requires word == "" || word[0] != '/'
    ensures BreadthReason(word).None? <==> word != "" && forall i :: 0 <= i < |word| ==> !IsWildcard(word[i])
  {
    forall c ensures c in WILDCARDS <==> IsWildcard(c) {
    }
  }

  /** A path the breadth guard lets through covers only specific paths. */
  lemma CoveredIsSpecific(pat: string, p: string)
    requires BreadthReason(pat).None? && PathCovers(pat, p)
    ensures Specific(p)
  {
    CoveredSegments(pat, p);
  }
}
