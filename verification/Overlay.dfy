/** Overlay layers in a mount's option string (nails-teardown/src/mountinfo.rs, `parse_overlay_opts`). */
module Overlay {
  import opened Basics
  import opened Texts
  import opened Escapes

  datatype OverlayOpts = OverlayOpts(lowerdir: seq<string>, upperdir: Option<string>, workdir: Option<string>)

  const NO_LAYERS := OverlayOpts([], None, None)
  const LOWERDIR := "lowerdir="
  const UPPERDIR := "upperdir="
  const WORKDIR := "workdir="

  // ------------------------------------------------------------------- parsing

  /** The layers of a `lowerdir` value that has been cut at its colons. */
  function LayersOf(pieces: seq<string>): seq<string>
  {
    if pieces == [] then []
    else (if pieces[0] == "" then [] else [UnescapeOverlay(pieces[0])]) + LayersOf(pieces[1..])
  }

  /** One option taken into account. */
  function Take(opts: OverlayOpts, raw: string): OverlayOpts
  {
    if StartsWith(raw, LOWERDIR) then
      opts.(lowerdir := LayersOf(SplitRaw(UnescapeOctal(raw[|LOWERDIR|..]), ':')))
    else if StartsWith(raw, UPPERDIR) then
      opts.(upperdir := Some(UnescapeOverlay(UnescapeOctal(raw[|UPPERDIR|..]))))
    else if StartsWith(raw, WORKDIR) then
      opts.(workdir := Some(UnescapeOverlay(UnescapeOctal(raw[|WORKDIR|..]))))
    else opts
  }

  function TakeAll(opts: OverlayOpts, raws: seq<string>): OverlayOpts
    decreases |raws|
  {
    if raws == [] then opts else TakeAll(Take(opts, raws[0]), raws[1..])
  }

  function ParsedOpts(superOpts: string): OverlayOpts
  {
    TakeAll(NO_LAYERS, SplitRaw(superOpts, ','))
  }

  method ReadLayers(value: string) returns (layers: seq<string>)
    ensures layers == LayersOf(SplitRaw(UnescapeOctal(value), ':'))
  {
    var decoded := DecodeOctal(value);
    var pieces := CutRaw(decoded, ':');
    layers := [];
    for i := 0 to |pieces|
      invariant LayersOf(pieces) == layers + LayersOf(pieces[i..])
    {
      assert pieces[i..][1..] == pieces[i + 1..];
      ghost var left := LayersOf(pieces[i + 1..]);
      if pieces[i] != "" {
        var layer := DecodeOverlay(pieces[i]);
        assert layers + ([layer] + left) == layers + [layer] + left;
        layers := layers + [layer];
      } else {
        assert [] + left == left;
      }
    }
  }

  method ReadPath(value: string) returns (path: string)
    ensures path == UnescapeOverlay(UnescapeOctal(value))
  {
    var decoded := DecodeOctal(value);
    path := DecodeOverlay(decoded);
  }

  /** `parse_overlay_opts`. */
  method ParseOverlayOpts(superOpts: string) returns (opts: OverlayOpts)
    ensures opts == ParsedOpts(superOpts)
  {
    opts := NO_LAYERS;
    var raws := CutRaw(superOpts, ',');
    for i := 0 to |raws|
      invariant ParsedOpts(superOpts) == TakeAll(opts, raws[i..])
    {
      var raw := raws[i];
      assert raws[i..][1..] == raws[i + 1..];
      if StartsWith(raw, LOWERDIR) {
        var layers := ReadLayers(raw[|LOWERDIR|..]);
        opts := opts.(lowerdir := layers);
      } else if StartsWith(raw, UPPERDIR) {
        var path := ReadPath(raw[|UPPERDIR|..]);
        opts := opts.(upperdir := Some(path));
      } else if StartsWith(raw, WORKDIR) {
        var path := ReadPath(raw[|WORKDIR|..]);
        opts := opts.(workdir := Some(path));
      }
    }
  }

  // ------------------------------------------------------------------ printing

  /** Where an option string comes from: built for mount(2), or printed by the kernel, for layers that
  were given through mount(2) or, each option whole and its commas bare, through fsconfig(2). */
  datatype Form = Given | Shown | ShownFromFsconfig

  function SpecialIn(form: Form): set<char>
  {
    if form.ShownFromFsconfig? then FSCONFIG_SPECIAL else OVERLAY_SPECIAL
  }

  function EscapeAll(layers: seq<string>, special: set<char>): (r: seq<string>)
    ensures |r| == |layers|
    ensures forall i :: 0 <= i < |layers| ==> r[i] == EscapeWith(layers[i], special)
  {
    seq(|layers|, i requires 0 <= i < |layers| => EscapeWith(layers[i], special))
  }

  /** The layers in the overlay syntax, before the kernel prints them. */
  function Escaped(form: Form, layers: seq<string>): string
  {
    Join(EscapeAll(layers, SpecialIn(form)), ":")
  }

  function Value(form: Form, layers: seq<string>): string
  {
    if form.Given? then Escaped(form, layers) else KernelEscape(Escaped(form, layers), OPTION_SPECIAL)
  }

  /** The options that name the layers, in the order nails writes them. */
  function OptionTexts(form: Form, opts: OverlayOpts): seq<string>
  {
    ["lowerdir=" + Value(form, opts.lowerdir)]
    + PathOption(form, "upperdir=", opts.upperdir)
    + PathOption(form, "workdir=", opts.workdir)
  }

  // ---------------------------------------------------------------- round trip

  lemma EscapedWhole(form: Form, layers: seq<string>)
    ensures AllWhole(EscapeAll(layers, SpecialIn(form)), ':')
    ensures !form.ShownFromFsconfig? ==> Whole(Escaped(form, layers), ',')
    ensures NoOctal(Escaped(form, layers))
  {
    var special := SpecialIn(form);
    var pieces := EscapeAll(layers, special);
    forall i | 0 <= i < |pieces| ensures Whole(pieces[i], ':') && NoOctal(pieces[i]) {
      EscapeWhole(layers[i], special, ':');
      EscapeNoOctal(layers[i], special);
    }
    if form.ShownFromFsconfig? {
      NoOctalJoin(pieces);
    } else {
      forall i | 0 <= i < |pieces| ensures Whole(pieces[i], ',') {
        EscapeWhole(layers[i], special, ',');
      }
      JoinWhole(pieces, ':', ',');
    }
  }

  lemma {:induction false} NoOctalJoin(parts: seq<string>)
    requires forall i :: 0 <= i < |parts| ==> NoOctal(parts[i])
    ensures NoOctal(Join(parts, ":"))
  {
    if |parts| > 1 {
      NoOctalJoin(parts[1..]);
      PlainWhole(":", ',');
      NoOctalConcat(parts[0], ":");
      NoOctalConcat(parts[0] + ":", Join(parts[1..], ":"));
    }
  }

  /** Every form of a value decodes to the overlay syntax, and holds no comma that would cut it. */
  lemma ValueDecodes(form: Form, layers: seq<string>)
    ensures UnescapeOctal(Value(form, layers)) == Escaped(form, layers)
    ensures Whole(Value(form, layers), ',')
  {
    EscapedWhole(form, layers);
    if form.Given? {
      UnescapeOctalLeaves(Escaped(form, layers));
    } else {
      UnescapeOctalKernel(Escaped(form, layers), OPTION_SPECIAL);
      KernelWhole(Escaped(form, layers), OPTION_SPECIAL, ',');
    }
  }

  lemma {:induction false} LayersBack(layers: seq<string>, special: set<char>)
    requires '\\' in special && forall i :: 0 <= i < |layers| ==> layers[i] != ""
    ensures LayersOf(EscapeAll(layers, special)) == layers
  {
    if layers != [] {
      LayersBack(layers[1..], special);
      UnescapeOverlayEscape(layers[0], special);
      assert EscapeAll(layers, special)[1..] == EscapeAll(layers[1..], special);
    }
  }

  lemma LowerdirBack(form: Form, layers: seq<string>)
    requires forall i :: 0 <= i < |layers| ==> layers[i] != ""
    ensures LayersOf(SplitRaw(UnescapeOctal(Value(form, layers)), ':')) == layers
  {
    ValueDecodes(form, layers);
    if layers == [] {
      assert SplitRaw("", ':') == [""] && [""][1..] == [];
    } else {
      EscapedWhole(form, layers);
      SplitRawJoin(EscapeAll(layers, SpecialIn(form)), ':');
      LayersBack(layers, SpecialIn(form));
    }
  }

  lemma PathBack(form: Form, path: string)
    ensures UnescapeOverlay(UnescapeOctal(Value(form, [path]))) == path
  {
    ValueDecodes(form, [path]);
    UnescapeOverlayEscape(path, SpecialIn(form));
  }

  lemma KeyedOption(form: Form, key: string, layers: seq<string>)
    requires Free(key, '\\') && Free(key, ',')
    ensures Whole(key + Value(form, layers), ',')
    ensures StartsWith(key + Value(form, layers), key) && (key + Value(form, layers))[|key|..] == Value(form, layers)
  {
    ValueDecodes(form, layers);
    PlainWhole(key, ',');
    WholeConcat(key, Value(form, layers), ',');
  }

  lemma TakeLowerdir(form: Form, opts: OverlayOpts, layers: seq<string>)
    requires forall i :: 0 <= i < |layers| ==> layers[i] != ""
    ensures Take(opts, LOWERDIR + Value(form, layers)) == opts.(lowerdir := layers)
  {
    KeyedOption(form, LOWERDIR, layers);
    LowerdirBack(form, layers);
  }

  lemma TakePath(form: Form, opts: OverlayOpts, path: string)
    ensures Take(opts, UPPERDIR + Value(form, [path])) == opts.(upperdir := Some(path))
    ensures Take(opts, WORKDIR + Value(form, [path])) == opts.(workdir := Some(path))
  {
    KeyedOption(form, UPPERDIR, [path]);
    KeyedOption(form, WORKDIR, [path]);
    PathBack(form, path);
  }

  lemma {:induction false} TakeAllConcat(opts: OverlayOpts, xs: seq<string>, ys: seq<string>)
    ensures TakeAll(opts, xs + ys) == TakeAll(TakeAll(opts, xs), ys)
    decreases |xs|
  {
    if xs == [] {
      assert xs + ys == ys;
    } else {
      TakeAllConcat(Take(opts, xs[0]), xs[1..], ys);
      assert (xs + ys)[1..] == xs[1..] + ys;
    }
  }

  /** An option the layers do not come from, with its commas escaped (`rw`, `index=off`). */
  ghost predicate Unrelated(option: string)
  {
    && Whole(option, ',')
    && !StartsWith(option, LOWERDIR) && !StartsWith(option, UPPERDIR) && !StartsWith(option, WORKDIR)
  }

  ghost predicate AllUnrelated(options: seq<string>)
  {
    forall i :: 0 <= i < |options| ==> Unrelated(options[i])
  }

  lemma {:induction false} TakeUnrelated(opts: OverlayOpts, options: seq<string>)
    requires AllUnrelated(options)
    ensures TakeAll(opts, options) == opts
  {
    if options != [] {
      TakeUnrelated(opts, options[1..]);
    }
  }

  /** An option for a path that may be missing. */
  function PathOption(form: Form, key: string, path: Option<string>): seq<string>
  {
    if path.Some? then [key + Value(form, [path.value])] else []
  }

  lemma TakeUpper(form: Form, opts: OverlayOpts, path: Option<string>)
    requires opts.upperdir.None?
    ensures TakeAll(opts, PathOption(form, UPPERDIR, path)) == opts.(upperdir := path)
    ensures AllWhole(PathOption(form, UPPERDIR, path), ',')
  {
    if path.Some? {
      TakePath(form, opts, path.value);
      KeyedOption(form, UPPERDIR, [path.value]);
    }
  }

  lemma TakeWork(form: Form, opts: OverlayOpts, path: Option<string>)
    requires opts.workdir.None?
    ensures TakeAll(opts, PathOption(form, WORKDIR, path)) == opts.(workdir := path)
    ensures AllWhole(PathOption(form, WORKDIR, path), ',')
  {
    if path.Some? {
      TakePath(form, opts, path.value);
      KeyedOption(form, WORKDIR, [path.value]);
    }
  }

  lemma TakeOptionTexts(form: Form, opts: OverlayOpts)
    requires forall i :: 0 <= i < |opts.lowerdir| ==> opts.lowerdir[i] != ""
    ensures TakeAll(NO_LAYERS, OptionTexts(form, opts)) == opts
    ensures AllWhole(OptionTexts(form, opts), ',')
  {
    var lower := LOWERDIR + Value(form, opts.lowerdir);
    var upper, work := PathOption(form, UPPERDIR, opts.upperdir), PathOption(form, WORKDIR, opts.workdir);
    KeyedOption(form, LOWERDIR, opts.lowerdir);
    TakeLowerdir(form, NO_LAYERS, opts.lowerdir);
    TakeUpper(form, OverlayOpts(opts.lowerdir, None, None), opts.upperdir);
    TakeWork(form, OverlayOpts(opts.lowerdir, opts.upperdir, None), opts.workdir);
    TakeAllConcat(NO_LAYERS, [lower] + upper, work);
    TakeAllConcat(NO_LAYERS, [lower], upper);
  }

  /** Whatever form the option string has and whatever other options stand around them, the layers come back. */
  lemma LayersRoundTrip(form: Form, opts: OverlayOpts, before: seq<string>, after: seq<string>)
    requires forall i :: 0 <= i < |opts.lowerdir| ==> opts.lowerdir[i] != ""
    requires AllUnrelated(before) && AllUnrelated(after)
    ensures ParsedOpts(Join(before + OptionTexts(form, opts) + after, ",")) == opts
  {
    var texts := OptionTexts(form, opts);
    TakeOptionTexts(form, opts);
    SplitRawJoin(before + texts + after, ',');
    TakeAllConcat(NO_LAYERS, before + texts, after);
    TakeAllConcat(NO_LAYERS, before, texts);
    TakeUnrelated(NO_LAYERS, before);
    TakeUnrelated(opts, after);
  }

  /** The last of several options for one directory counts, whatever stands before it. */
  lemma LastLayersWin(form: Form, layers: seq<string>, before: seq<string>, after: seq<string>)
    requires AllWhole(before, ',') && AllUnrelated(after) && forall i :: 0 <= i < |layers| ==> layers[i] != ""
    ensures ParsedOpts(Join(before + [LOWERDIR + Value(form, layers)] + after, ",")).lowerdir == layers
  {
    TakeLowerdir(form, TakeAll(NO_LAYERS, before), layers);
    KeyedOption(form, LOWERDIR, layers);
    TakenLast(before, LOWERDIR + Value(form, layers), after);
  }

  lemma LastUpperWins(form: Form, path: string, before: seq<string>, after: seq<string>)
    requires AllWhole(before, ',') && AllUnrelated(after)
    ensures ParsedOpts(Join(before + [UPPERDIR + Value(form, [path])] + after, ",")).upperdir == Some(path)
  {
    TakePath(form, TakeAll(NO_LAYERS, before), path);
    KeyedOption(form, UPPERDIR, [path]);
    TakenLast(before, UPPERDIR + Value(form, [path]), after);
  }

  lemma LastWorkWins(form: Form, path: string, before: seq<string>, after: seq<string>)
    requires AllWhole(before, ',') && AllUnrelated(after)
    ensures ParsedOpts(Join(before + [WORKDIR + Value(form, [path])] + after, ",")).workdir == Some(path)
  {
    TakePath(form, TakeAll(NO_LAYERS, before), path);
    KeyedOption(form, WORKDIR, [path]);
    TakenLast(before, WORKDIR + Value(form, [path]), after);
  }

  lemma TakenLast(before: seq<string>, option: string, after: seq<string>)
    requires AllWhole(before, ',') && Whole(option, ',') && AllUnrelated(after)
    ensures ParsedOpts(Join(before + [option] + after, ",")) == Take(TakeAll(NO_LAYERS, before), option)
  {
    SplitRawJoin(before + [option] + after, ',');
    TakeAllConcat(NO_LAYERS, before + [option], after);
    TakeAllConcat(NO_LAYERS, before, [option]);
    var opts := TakeAll(NO_LAYERS, before);
    assert TakeAll(opts, [option]) == Take(opts, option);
    TakeUnrelated(Take(opts, option), after);
  }

  /** Options that name no layers leave none. */
  lemma NothingToTake(options: seq<string>)
    requires options != [] && AllUnrelated(options)
    ensures ParsedOpts(Join(options, ",")) == NO_LAYERS
  {
    SplitRawJoin(options, ',');
    TakeUnrelated(NO_LAYERS, options);
  }

  lemma {:induction false} LayersConcat(xs: seq<string>, ys: seq<string>)
    ensures LayersOf(xs + ys) == LayersOf(xs) + LayersOf(ys)
  {
    if xs == [] {
      assert xs + ys == ys;
    } else {
      LayersConcat(xs[1..], ys);
      assert (xs + ys)[1..] == xs[1..] + ys;
    }
  }

  /** Empty layers are left out. */
  lemma EmptyLayersGo(xs: seq<string>, ys: seq<string>)
    ensures LayersOf(xs + [""] + ys) == LayersOf(xs) + LayersOf(ys)
  {
    LayersConcat(xs + [""], ys);
    LayersConcat(xs, [""]);
    NoLayer();
    assert LayersOf(xs) + [] == LayersOf(xs);
  }

  lemma NoLayer()
    ensures LayersOf([""]) == []
  {
  }
}
