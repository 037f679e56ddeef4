/** The names systemd and udev derive from paths and labels (nails-base/src/fstab.rs), against the model of
systemd's own functions in fuzz/src/systemd.rs. */
module UnitNames {
  import opened Basics
  import opened Texts
  import U = Utf8

  // -------------------------------------------------------------- escape_path

  predicate IsAlphanumeric(b: int)
  {
    'a' as int <= b <= 'z' as int || 'A' as int <= b <= 'Z' as int || '0' as int <= b <= '9' as int
  }

  predicate KeptInUnit(b: int)
  {
    IsAlphanumeric(b) || b == ':' as int || b == '_' as int || b == '.' as int
  }

  /** One byte of a unit name; a dot at the very start is escaped. */
  function UnitByte(b: int, first: bool): (s: string)
    requires 0 <= b < 256
    ensures s != "" && |s| == if s[0] == '\\' then 4 else 1
  {
    if b == '/' as int then "-"
    else if b == '.' as int && first then U.Hex(b)
    else if KeptInUnit(b) then [b as char]
    else U.Hex(b)
  }

  function UnitBytes(bytes: seq<int>, first: bool): string
    requires forall i :: 0 <= i < |bytes| ==> 0 <= bytes[i] < 256
  {
    if bytes == [] then "" else UnitByte(bytes[0], first) + UnitBytes(bytes[1..], false)
  }

  /** The components that stay of a path that is already free of empty and `.` ones. */
  function DropLeadingParents(components: seq<string>, absolute: bool): seq<string>
  {
    if absolute && components != [] && components[0] == ".." then DropLeadingParents(components[1..], absolute)
    else components
  }

  predicate Meaningful(component: string)
  {
    component != "" && component != "."
  }

  function KeepMeaningful(parts: seq<string>): (r: seq<string>)
    ensures forall i :: 0 <= i < |r| ==> Meaningful(r[i])
  {
    if parts == [] then []
    else (if Meaningful(parts[0]) then [parts[0]] else []) + KeepMeaningful(parts[1..])
  }

  /** A path in its simplest form: its components. */
  function Simplified(path: string): seq<string>
  {
    DropLeadingParents(KeepMeaningful(SplitOn(path, '/')), path != "" && path[0] == '/')
  }

  function EscapedPath(path: string): string
  {
    var kept := Simplified(path);
    if kept == [] then "-" else UnitBytes(U.Encode(Join(kept, "/")), true)
  }

  /** What the loop keeps once it has gone over the first components. */
  lemma {:induction false} DropThenKeep(components: seq<string>, absolute: bool)
    requires components != []
    ensures var n := |components| - 1;
      var before := DropLeadingParents(components[..n], absolute);
      DropLeadingParents(components, absolute)
        == if absolute && before == [] && components[n] == ".." then [] else before + [components[n]]
    decreases |components|
  {
    var n := |components| - 1;
    if absolute && n > 0 && components[0] == ".." {
      DropThenKeep(components[1..], absolute);
      assert components[1..][..n - 1] == components[..n][1..];
    } else if n == 0 {
      assert components[..n] == [] && components[1..] == [];
      assert components == [components[0]];
    } else {
      assert components == components[..n] + [components[n]];
    }
  }

  lemma UnitBytesFrom(bytes: seq<int>, i: nat)
    requires i < |bytes| && forall k :: 0 <= k < |bytes| ==> 0 <= bytes[k] < 256
    ensures UnitBytes(bytes[i..], i == 0) == UnitByte(bytes[i], i == 0) + UnitBytes(bytes[i + 1..], false)
  {
    assert bytes[i..][1..] == bytes[i + 1..];
  }

  /** The loop over the components. */
  method KeepComponents(path: string) returns (kept: seq<string>)
    ensures kept == Simplified(path)
  {
    var absolute := path != "" && path[0] == '/';
    var components := KeepMeaningful(SplitOn(path, '/'));
    kept := [];
    for i := 0 to |components|
      invariant kept == DropLeadingParents(components[..i], absolute)
    {
      DropThenKeep(components[..i + 1], absolute);
      assert components[..i + 1][..i] == components[..i];
      if absolute && kept == [] && components[i] == ".." {
        continue;
      }
      kept := kept + [components[i]];
    }
    assert components[..|components|] == components;
  }

  /** `escape_path`. */
  method EscapePath(path: string) returns (out: string)
    ensures out == EscapedPath(path)
  {
    var kept := KeepComponents(path);
    if kept == [] {
      return "-";
    }
    var bytes := U.Encode(Join(kept, "/"));
    out := "";
    for i := 0 to |bytes|
      invariant UnitBytes(bytes, true) == out + UnitBytes(bytes[i..], i == 0)
    {
      var piece := UnitByte(bytes[i], i == 0);
      UnitBytesFrom(bytes, i);
      Append(out, piece, UnitBytes(bytes[i + 1..], false));
      out := out + piece;
    }
  }

  lemma UnitByteInjective(a: int, b: int, first: bool)
    requires 0 <= a < 256 && 0 <= b < 256 && UnitByte(a, first) == UnitByte(b, first)
    ensures a == b
  {
    var s := UnitByte(a, first);
    if s[0] == '\\' {
      U.HexInjective(a, b);
    } else {
      assert s[0] == UnitByte(b, first)[0];
    }
  }

  lemma {:induction false} UnitBytesInjective(a: seq<int>, b: seq<int>, first: bool)
    requires forall i :: 0 <= i < |a| ==> 0 <= a[i] < 256
    requires forall i :: 0 <= i < |b| ==> 0 <= b[i] < 256
    requires UnitBytes(a, first) == UnitBytes(b, first)
    ensures a == b
  {
    if a != [] && b != [] {
      var x, s := UnitByte(a[0], first), UnitBytes(a[1..], false);
      var y, t := UnitByte(b[0], first), UnitBytes(b[1..], false);
      assert (x + s)[0] == x[0] && (y + t)[0] == y[0];
      U.SplitEqual(x, s, y, t);
      UnitByteInjective(a[0], b[0], first);
      UnitBytesInjective(a[1..], b[1..], false);
      assert a == [a[0]] + a[1..] && b == [b[0]] + b[1..];
    }
  }

  // ------------------------------------------------- simplified components are proper

  ghost predicate Proper(parts: seq<string>)
  {
    forall i :: 0 <= i < |parts| ==> parts[i] != "" && Free(parts[i], '/')
  }

  lemma {:induction false} KeptProper(parts: seq<string>)
    requires AllFree(parts, '/')
    ensures Proper(KeepMeaningful(parts))
  {
    if parts != [] {
      KeptProper(parts[1..]);
    }
  }

  lemma {:induction false} DroppedProper(parts: seq<string>, absolute: bool)
    requires Proper(parts)
    ensures Proper(DropLeadingParents(parts, absolute))
  {
    if parts != [] {
      DroppedProper(parts[1..], absolute);
    }
  }

  lemma SimplifiedProper(path: string)
    ensures Proper(Simplified(path)) && AllFree(Simplified(path), '/')
  {
    SplitParts(path, '/', '/');
    KeptProper(SplitOn(path, '/'));
    DroppedProper(KeepMeaningful(SplitOn(path, '/')), path != "" && path[0] == '/');
  }

  lemma JoinStart(parts: seq<string>)
    requires parts != [] && Proper(parts)
    ensures Join(parts, "/") != "" && Join(parts, "/")[0] != '/'
  {
    if |parts| > 1 {
      assert Join(parts, "/")[0] == parts[0][0];
    }
  }

  /** A name made of components is never the one-dash name of the root. */
  lemma NotTheRootName(parts: seq<string>)
    requires parts != [] && Proper(parts)
    ensures UnitBytes(U.Encode(Join(parts, "/")), true) != "-"
  {
    JoinStart(parts);
    var text := Join(parts, "/");
    var lead := U.Bytes(text[0])[0];
    assert U.Encode(text)[0] == lead != '/' as int;
    var name := UnitBytes(U.Encode(text), true);
    assert name[0] == UnitByte(lead, true)[0] != '-';
  }

  /** Two paths get the same name exactly when they simplify to the same components. */
  lemma EscapedPathExactlyWhen(p: string, q: string)
    ensures EscapedPath(p) == EscapedPath(q) <==> Simplified(p) == Simplified(q)
  {
    var a, b := Simplified(p), Simplified(q);
    SimplifiedProper(p);
    SimplifiedProper(q);
    if a != [] {
      NotTheRootName(a);
    }
    if b != [] {
      NotTheRootName(b);
    }
    if EscapedPath(p) == EscapedPath(q) && a != [] {
      UnitBytesInjective(U.Encode(Join(a, "/")), U.Encode(Join(b, "/")), true);
      U.EncodeInjective(Join(a, "/"), Join(b, "/"));
      SplitJoin(a, '/');
      SplitJoin(b, '/');
    }
  }

  // ------------------------------------------------------------ systemd's own functions

  const NAME_MAX := 255
  const PATH_MAX := 4096
  const UNIT_NAME_MAX := 256

  datatype UnitName = Name(name: string) | Hashed | Refused

  /** The components `path_simplify()` keeps of the rest, when it has kept some already or none yet. */
  function SystemdKept(parts: seq<string>, absolute: bool, none: bool): seq<string>
  {
    if parts == [] then []
    else if parts[0] == "" || parts[0] == "." || (absolute && none && parts[0] == "..")
    then SystemdKept(parts[1..], absolute, none)
    else [parts[0]] + SystemdKept(parts[1..], absolute, false)
  }

  /** `path_simplify()`. */
  function PathSimplify(path: string): string
  {
    var absolute := path != "" && path[0] == '/';
    var joined := Join(SystemdKept(SplitOn(path, '/'), absolute, true), "/");
    if path == "" then "" else if absolute then "/" + joined else if joined == "" then "." else joined
  }

  /** `path_is_normalized()`. */
  predicate Normalized(path: string)
  {
    && path != "." && |U.Encode(path)| < PATH_MAX
    && forall i :: 0 <= i < |SplitOn(path, '/')| ==>
         SplitOn(path, '/')[i] != ".." && |U.Encode(SplitOn(path, '/')[i])| <= NAME_MAX
  }

  function TrimSlashesBoth(text: string): string
    decreases |text|
  {
    if text != "" && text[0] == '/' then TrimSlashesBoth(text[1..])
    else if text != "" && text[|text| - 1] == '/' then TrimSlashesBoth(text[..|text| - 1])
    else text
  }

  const HEX_DIGITS := "0123456789abcdef"

  function SystemdHex(byte: int): string
    requires 0 <= byte < 256
  {
    "\\x" + [HEX_DIGITS[byte / 16], HEX_DIGITS[byte % 16]]
  }

  /** What stands for the byte at `index`. */
  function SystemdByte(byte: int, index: nat): string
    requires 0 <= byte < 256
  {
    var c := byte as char;
    if c == '/' then "-"
    else if c == '.' && index == 0 then "\\x2e"
    else if 'a' <= c <= 'z' || 'A' <= c <= 'Z' || '0' <= c <= '9' || c in ":_." then [c]
    else SystemdHex(byte)
  }

  /** `do_escape()`: byte after byte, by its place. */
  function SystemdEscape(bytes: seq<int>): string
    requires forall i :: 0 <= i < |bytes| ==> 0 <= bytes[i] < 256
  {
    if bytes == [] then ""
    else
      var n := |bytes| - 1;
      SystemdEscape(bytes[..n]) + SystemdByte(bytes[n], n)
  }

  lemma BytesAgree(byte: int, index: nat)
    requires 0 <= byte < 256
    ensures SystemdByte(byte, index) == UnitByte(byte, index == 0)
  {
    HexAgrees(byte);
  }

  lemma HexAgrees(byte: int)
    requires 0 <= byte < 256
    ensures SystemdHex(byte) == U.Hex(byte)
    ensures U.Hex('.' as int) == "\\x2e"
  {
    HexDigitAgrees(byte / 16);
    HexDigitAgrees(byte % 16);
  }

  lemma HexDigitAgrees(n: int)
    requires 0 <= n < 16
    ensures HEX_DIGITS[n] == U.HexDigit(n)
  {
  }

  lemma {:induction false} UnitBytesLast(bytes: seq<int>, first: bool)
    requires bytes != [] && forall i :: 0 <= i < |bytes| ==> 0 <= bytes[i] < 256
    ensures var n := |bytes| - 1;
      UnitBytes(bytes, first) == UnitBytes(bytes[..n], first) + UnitByte(bytes[n], first && n == 0)
  {
    var n := |bytes| - 1;
    if n > 0 {
      UnitBytesLast(bytes[1..], false);
      assert bytes[1..][..n - 1] == bytes[..n][1..];
    }
  }

  /** Nails escapes a text as systemd does. */
  lemma {:induction false} EscapesAgree(bytes: seq<int>)
    requires forall i :: 0 <= i < |bytes| ==> 0 <= bytes[i] < 256
    ensures SystemdEscape(bytes) == UnitBytes(bytes, true)
  {
    if bytes != [] {
      var n := |bytes| - 1;
      EscapesAgree(bytes[..n]);
      UnitBytesLast(bytes, true);
      BytesAgree(bytes[n], n);
    }
  }

  /** `unit_name_from_path()`. */
  function UnitNameFromPath(path: string, suffix: string): UnitName
  {
    var simple := PathSimplify(path);
    if '\0' in path then Refused
    else if simple != "" && simple != "/" && !Normalized(simple) then Refused
    else
      var escaped :=
        if simple == "" || simple == "/" then "-" else SystemdEscape(U.Encode(TrimSlashesBoth(simple)));
      if |U.Encode(escaped + suffix)| >= UNIT_NAME_MAX then Hashed else Name(escaped + suffix)
  }

  lemma {:induction false} SystemdKeepsMeaningful(parts: seq<string>, absolute: bool)
    ensures SystemdKept(parts, absolute, false) == KeepMeaningful(parts)
    ensures SystemdKept(parts, absolute, true) == DropLeadingParents(KeepMeaningful(parts), absolute)
  {
    if parts != [] {
      SystemdKeepsMeaningful(parts[1..], absolute);
      if Meaningful(parts[0]) {
        var kept := KeepMeaningful(parts);
        assert kept == [parts[0]] + KeepMeaningful(parts[1..]) && kept[1..] == KeepMeaningful(parts[1..]);
      } else {
        assert KeepMeaningful(parts) == KeepMeaningful(parts[1..]);
      }
    }
  }

  lemma {:induction false} JoinLast(parts: seq<string>)
    requires parts != [] && Proper(parts)
    ensures var text := Join(parts, "/"); text != "" && text[|text| - 1] != '/'
  {
    if |parts| > 1 {
      JoinLast(parts[1..]);
    }
  }

  lemma TrimmedSimple(path: string)
    requires Simplified(path) != []
    ensures PathSimplify(path) != "" && PathSimplify(path) != "/"
    ensures TrimSlashesBoth(PathSimplify(path)) == Join(Simplified(path), "/")
  {
    var kept := Simplified(path);
    SystemdKeepsMeaningful(SplitOn(path, '/'), path != "" && path[0] == '/');
    SimplifiedProper(path);
    JoinStart(kept);
    JoinLast(kept);
    var text := Join(kept, "/");
    assert ("/" + text)[1..] == text;
    assert TrimSlashesBoth(text) == text;
  }

  /** Wherever systemd gives a path a unit name, it is the name nails masks. */
  lemma SystemdAgrees(path: string, suffix: string)
    requires UnitNameFromPath(path, suffix).Name?
    ensures UnitNameFromPath(path, suffix).name == EscapedPath(path) + suffix
  {
    if Simplified(path) != [] {
      TrimmedSimple(path);
      EscapesAgree(U.Encode(Join(Simplified(path), "/")));
    } else {
      SystemdKeepsMeaningful(SplitOn(path, '/'), path != "" && path[0] == '/');
      assert PathSimplify(path) in {"", "/", "."};
    }
  }

  // ------------------------------------------------------------- encode_devnode_name

  predicate Noncharacter(code: int)
  {
    0xfdd0 <= code <= 0xfdef || code % 0x1_0000 >= 0xfffe
  }

  predicate KeptSign(c: char)
  {
    c in "#+-.:=@_"
  }

  /** What nails keeps of a label. */
  predicate KeptInNode(c: char)
  {
    var code := c as int;
    if code < 128 then IsAlphanumeric(code) || KeptSign(c) else !Noncharacter(code)
  }

  function NodeChar(c: char): (s: string)
    ensures s != ""
  {
    if KeptInNode(c) then [c] else U.HexAll(U.Bytes(c))
  }

  function NodeName(value: string): string
  {
    if value == "" then "" else NodeChar(value[0]) + NodeName(value[1..])
  }

  /** The loop over the bytes of one character. */
  method HexBytes(bytes: seq<int>) returns (out: string)
    requires forall i :: 0 <= i < |bytes| ==> 0 <= bytes[i] < 256
    ensures out == U.HexAll(bytes)
  {
    out := "";
    for j := 0 to |bytes|
      invariant U.HexAll(bytes) == out + U.HexAll(bytes[j..])
    {
      assert bytes[j..][1..] == bytes[j + 1..];
      Append(out, U.Hex(bytes[j]), U.HexAll(bytes[j + 1..]));
      out := out + U.Hex(bytes[j]);
    }
  }

  /** `encode_devnode_name`. */
  method EncodeDevnodeName(value: string) returns (out: string)
    ensures out == NodeName(value)
  {
    out := "";
    for i := 0 to |value|
      invariant NodeName(value) == out + NodeName(value[i..])
    {
      assert value[i..][1..] == value[i + 1..];
      var piece := [value[i]];
      if !KeptInNode(value[i]) {
        piece := HexBytes(U.Bytes(value[i]));
      }
      Append(out, piece, NodeName(value[i + 1..]));
      out := out + piece;
    }
  }

  lemma EscapedNodeChar(c: char)
    requires !KeptInNode(c)
    ensures NodeChar(c)[0] == '\\' && |NodeChar(c)| == 4 * |U.Bytes(c)|
    ensures NodeChar(c)[..4] == U.Hex(U.Bytes(c)[0])
  {
  }

  lemma NodeCharPrefix(c: char, s: string, d: char, t: string)
    requires NodeChar(c) + s == NodeChar(d) + t
    ensures c == d && s == t
  {
    var x, y := NodeChar(c), NodeChar(d);
    assert (x + s)[0] == x[0] && (y + t)[0] == y[0];
    if KeptInNode(c) || KeptInNode(d) {
      if !KeptInNode(c) {
        EscapedNodeChar(c);
      }
      if !KeptInNode(d) {
        EscapedNodeChar(d);
      }
      U.SplitEqual(x, s, y, t);
    } else {
      EscapedNodeChar(c);
      EscapedNodeChar(d);
      assert (x + s)[..4] == x[..4] && (y + t)[..4] == y[..4];
      U.HexInjective(U.Bytes(c)[0], U.Bytes(d)[0]);
      U.LeadByte(c);
      U.LeadByte(d);
      U.SplitEqual(x, s, y, t);
      U.HexAllInjective(U.Bytes(c), U.Bytes(d));
      U.BytesInjective(c, d);
    }
  }

  /** Different labels get different link names. */
  lemma {:induction false} NodeNameInjective(a: string, b: string)
    requires NodeName(a) == NodeName(b)
    ensures a == b
  {
    if a != "" && b != "" {
      NodeCharPrefix(a[0], NodeName(a[1..]), b[0], NodeName(b[1..]));
      NodeNameInjective(a[1..], b[1..]);
      assert a == [a[0]] + a[1..] && b == [b[0]] + b[1..];
    }
  }

  lemma {:induction false} HexAllFree(bytes: seq<int>)
    requires forall i :: 0 <= i < |bytes| ==> 0 <= bytes[i] < 256
    ensures Free(U.HexAll(bytes), '/')
  {
    if bytes != [] {
      HexAllFree(bytes[1..]);
    }
  }

  /** A link name never leaves its directory. */
  lemma {:induction false} NodeNameFree(value: string)
    ensures Free(NodeName(value), '/')
  {
    if value != "" {
      NodeNameFree(value[1..]);
      if !KeptInNode(value[0]) {
        HexAllFree(U.Bytes(value[0]));
      }
    }
  }

  /** What systemd's `encode_devnode_name()` keeps. */
  predicate SystemdKeepsInNode(c: char)
  {
    || (|U.Bytes(c)| > 1 && SystemdUnicharIsValid(c as int))
    || 'a' <= c <= 'z' || 'A' <= c <= 'Z' || '0' <= c <= '9'
    || c == '#' || c == '+' || c == '-' || c == '.' || c == ':' || c == '=' || c == '@' || c == '_'
  }

  /** `unichar_is_valid()`: no code from FDD0 to FDEF, and none whose last sixteen bits are ones but for the lowest. */
  predicate SystemdUnicharIsValid(code: int)
    requires code >= 0
  {
    !(0xfdd0 <= code < 0xfdf0) && code / 2 % 0x8000 != 0x7fff
  }

  function SystemdHexAll(bytes: seq<int>): string
    requires forall i :: 0 <= i < |bytes| ==> 0 <= bytes[i] < 256
  {
    if bytes == [] then "" else SystemdHexAll(bytes[..|bytes| - 1]) + SystemdHex(bytes[|bytes| - 1])
  }

  lemma {:induction false} HexLast(bytes: seq<int>)
    requires bytes != [] && forall i :: 0 <= i < |bytes| ==> 0 <= bytes[i] < 256
    ensures U.HexAll(bytes) == U.HexAll(bytes[..|bytes| - 1]) + U.Hex(bytes[|bytes| - 1])
  {
    if |bytes| > 1 {
      HexLast(bytes[1..]);
      assert bytes[1..][..|bytes| - 2] == bytes[..|bytes| - 1][1..];
    }
  }

  lemma {:induction false} HexesAgree(bytes: seq<int>)
    requires forall i :: 0 <= i < |bytes| ==> 0 <= bytes[i] < 256
    ensures SystemdHexAll(bytes) == U.HexAll(bytes)
  {
    if bytes != [] {
      HexesAgree(bytes[..|bytes| - 1]);
      HexLast(bytes);
      HexAgrees(bytes[|bytes| - 1]);
    }
  }

  lemma KeepsAgree(c: char)
    ensures SystemdKeepsInNode(c) == KeptInNode(c)
  {
    UnicharsAgree(c as int);
  }

  lemma UnicharsAgree(code: int)
    requires code >= 0
    ensures SystemdUnicharIsValid(code) == !Noncharacter(code)
  {
    assert code % 0x1_0000 == 2 * (code / 2 % 0x8000) + code % 2;
  }

  function SystemdNodeName(value: string): string
  {
    if value == "" then ""
    else
      (if SystemdKeepsInNode(value[0]) then [value[0]] else SystemdHexAll(U.Bytes(value[0])))
      + SystemdNodeName(value[1..])
  }

  /** Nails and systemd name the same link. */
  lemma {:induction false} NodeNamesAgree(value: string)
    ensures NodeName(value) == SystemdNodeName(value)
  {
    if value != "" {
      NodeNamesAgree(value[1..]);
      KeepsAgree(value[0]);
      HexesAgree(U.Bytes(value[0]));
    }
  }

  // ------------------------------------------------------------------- spec_device

  /** One pair of matching quotes around a value removed. */
  function Unquote(value: string): string
  {
    if |value| >= 2 && value[0] in "\"'" && value[|value| - 1] == value[0] then value[1..|value| - 1] else value
  }

  /** `Path::join`, on the text: an absolute name replaces the directory. */
  function JoinPath(dir: string, name: string): string
  {
    if name != "" && name[0] == '/' then name
    else if dir != "" && dir[|dir| - 1] == '/' then dir + name
    else dir + "/" + name
  }

  function KeyEnd(spec: string): (i: nat)
    ensures i <= |spec| && Free(spec[..i], '=') && (i < |spec| ==> spec[i] == '=')
  {
    if spec == "" || spec[0] == '=' then 0
    else
      var i := KeyEnd(spec[1..]);
      assert spec[..1 + i] == [spec[0]] + spec[1..][..i];
      1 + i
  }

  const UUID := "UUID"
  const LABEL := "LABEL"
  const PARTUUID := "PARTUUID"
  const PARTLABEL := "PARTLABEL"

  function LinkDirectory(key: string): Option<string>
  {
    if key == UUID then Some("by-uuid")
    else if key == LABEL then Some("by-label")
    else if key == PARTUUID then Some("by-partuuid")
    else if key == PARTLABEL then Some("by-partlabel")
    else None
  }

  /** `spec_device`. */
  function SpecDevice(spec: string): Option<string>
  {
    var i := KeyEnd(spec);
    if StartsWith(spec, "/dev/") then Some(spec)
    else if i == |spec| then None
    else
      match LinkDirectory(spec[..i])
      case None => None
      case Some(dir) => Some(JoinPath(JoinPath("/dev/disk", dir), NodeName(Unquote(spec[i + 1..]))))
  }

  /** systemd's own `unquote()`: the ends are dropped when both are one and the same quote. */
  function SystemdUnquote(value: string): string
  {
    var n := |value|;
    if n < 2 then value
    else if value[0] == '"' && value[n - 1] == '"' then value[..n - 1][1..]
    else if value[0] == '\'' && value[n - 1] == '\'' then value[..n - 1][1..]
    else value
  }

  lemma UnquotesAgree(value: string)
    ensures SystemdUnquote(value) == Unquote(value)
  {
    if |value| >= 2 {
      assert value[..|value| - 1][1..] == value[1..|value| - 1];
    }
  }

  function UdevLink(kind: string, value: string): string
  {
    "/dev/disk/by-" + kind + "/" + SystemdNodeName(SystemdUnquote(value))
  }

  predicate Tagged(spec: string, key: string)
  {
    StartsWith(spec, key + "=")
  }

  function ValueOf(spec: string, key: string): string
    requires Tagged(spec, key)
  {
    spec[|key| + 1..]
  }

  /** `fstab_node_to_udev_node()`. */
  function UdevNode(spec: string): string
  {
    if Tagged(spec, LABEL) then UdevLink("label", ValueOf(spec, LABEL))
    else if Tagged(spec, UUID) then UdevLink("uuid", ValueOf(spec, UUID))
    else if Tagged(spec, PARTUUID) then UdevLink("partuuid", ValueOf(spec, PARTUUID))
    else if Tagged(spec, PARTLABEL) then UdevLink("partlabel", ValueOf(spec, PARTLABEL))
    else spec
  }

  lemma KeyEndIs(spec: string, k: nat)
    requires k < |spec| && spec[k] == '=' && Free(spec[..k], '=')
    ensures KeyEnd(spec) == k
  {
  }

  /** What stands before the first equals sign is a tag in front. */
  lemma KeyIsTag(spec: string)
    requires KeyEnd(spec) < |spec|
    ensures Tagged(spec, spec[..KeyEnd(spec)])
  {
    var i := KeyEnd(spec);
    assert spec[..i + 1] == spec[..i] + "=";
  }

  /** And a tag in front is what stands before the first equals sign. */
  lemma TagIsKey(spec: string, key: string)
    requires Free(key, '=') && Tagged(spec, key)
    ensures KeyEnd(spec) == |key| < |spec| && spec[..|key|] == key
  {
    var tag := key + "=";
    assert spec[..|key|] == spec[..|tag|][..|key|] == key;
    assert spec[|key|] == spec[..|tag|][|key|];
    KeyEndIs(spec, |key|);
  }

  lemma LinkText(dir: string, kind: string, value: string)
    requires dir == "by-" + kind && kind != "" && kind[|kind| - 1] != '/'
    ensures JoinPath(JoinPath("/dev/disk", dir), NodeName(Unquote(value))) == UdevLink(kind, value)
  {
    NodeNameFree(Unquote(value));
    NodeNamesAgree(Unquote(value));
    UnquotesAgree(value);
    LinkPath(dir, kind, NodeName(Unquote(value)));
  }

  lemma LinkPath(dir: string, kind: string, name: string)
    requires dir == "by-" + kind && kind != "" && kind[|kind| - 1] != '/' && Free(name, '/')
    ensures JoinPath(JoinPath("/dev/disk", dir), name) == "/dev/disk/by-" + kind + "/" + name
  {
    assert name != "" ==> name[0] != '/';
    assert JoinPath("/dev/disk", dir) == "/dev/disk" + "/" + dir;
    assert "/dev/disk" + "/" + dir == "/dev/disk/by-" + kind;
  }

  lemma TaggedAgrees(spec: string, key: string, dir: string, kind: string)
    requires Free(key, '=') && LinkDirectory(key) == Some(dir) && dir == "by-" + kind
    requires kind != "" && kind[|kind| - 1] != '/'
    requires !StartsWith(spec, "/dev/") && Tagged(spec, key)
    ensures SpecDevice(spec) == Some(UdevLink(kind, ValueOf(spec, key)))
  {
    TagIsKey(spec, key);
    LinkText(dir, kind, ValueOf(spec, key));
  }

  lemma UntaggedIsUnknown(spec: string)
    requires !Tagged(spec, LABEL) && !Tagged(spec, UUID) && !Tagged(spec, PARTUUID) && !Tagged(spec, PARTLABEL)
    ensures KeyEnd(spec) < |spec| ==> LinkDirectory(spec[..KeyEnd(spec)]).None?
  {
    if KeyEnd(spec) < |spec| {
      NotTheKey(spec, UUID);
      NotTheKey(spec, LABEL);
      NotTheKey(spec, PARTUUID);
      NotTheKey(spec, PARTLABEL);
    }
  }

  lemma NotTheKey(spec: string, key: string)
    requires KeyEnd(spec) < |spec| && !Tagged(spec, key)
    ensures spec[..KeyEnd(spec)] != key
  {
    KeyIsTag(spec);
  }

  lemma DevIsUntagged(spec: string)
    requires StartsWith(spec, "/dev/")
    ensures UdevNode(spec) == spec
  {
    assert spec[0] == spec[..5][0];
    NotTagged(spec, LABEL + "=");
    NotTagged(spec, UUID + "=");
    NotTagged(spec, PARTUUID + "=");
    NotTagged(spec, PARTLABEL + "=");
  }

  /** Nails resolves a spec to the node systemd opens, and leaves alone only what systemd takes as it is. */
  lemma SpecDeviceAgrees(spec: string)
    ensures match SpecDevice(spec) case Some(device) => device == UdevNode(spec) case None => UdevNode(spec) == spec
  {
    if StartsWith(spec, "/dev/") {
      DevIsUntagged(spec);
    } else if Tagged(spec, LABEL) {
      TaggedAgrees(spec, LABEL, "by-label", "label");
    } else if Tagged(spec, UUID) {
      TaggedAgrees(spec, UUID, "by-uuid", "uuid");
    } else if Tagged(spec, PARTUUID) {
      TaggedAgrees(spec, PARTUUID, "by-partuuid", "partuuid");
    } else if Tagged(spec, PARTLABEL) {
      TaggedAgrees(spec, PARTLABEL, "by-partlabel", "partlabel");
    } else {
      UntaggedIsUnknown(spec);
    }
  }

  lemma NotTagged(spec: string, tag: string)
    requires spec != "" && tag != "" && spec[0] != tag[0]
    ensures !StartsWith(spec, tag)
  {
    assert |tag| <= |spec| ==> spec[..|tag|][0] == spec[0];
  }
}
