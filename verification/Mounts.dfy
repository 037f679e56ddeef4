/** A line of the mount table, and paths as the standard library compares them. */
module Mounts {
  import opened Texts

  /** One parsed line of mountinfo. */
  datatype MountEntry = MountEntry(
    mountId: int,
    parentId: int,
    dev: string,
    root: PathBuf,
    mountPoint: PathBuf,
    mountOpts: string,
    fstype: string,
    source: PathBuf,
    superOpts: string)

  datatype Component = RootDir | CurDir | ParentDir | Normal(name: string)

  /** A path as the sequence of its components: two paths are equal when these are. */
  type Path = seq<Component>

  const ROOT: Path := [RootDir]

  /** A path as it was written, and its components. */
  datatype PathBuf = PathBuf(text: string, components: Path)

  function ComponentOf(part: string): Component
  {
    if part == ".." then ParentDir else Normal(part)
  }

  /** Empty parts and `.` mean nothing inside a path. */
  function Named(parts: seq<string>): Path
  {
    if parts == [] then []
    else if parts[0] == "" || parts[0] == "." then Named(parts[1..])
    else [ComponentOf(parts[0])] + Named(parts[1..])
  }

  /** `Path::components`. */
  function Components(text: string): Path
  {
    var parts := SplitOn(text, '/');
    if text != "" && text[0] == '/' then ROOT + Named(parts)
    else if parts[0] == "." then [CurDir] + Named(parts)
    else Named(parts)
  }

  function PathFrom(text: string): PathBuf
  {
    PathBuf(text, Components(text))
  }

  // ------------------------------------------------------------ what the components are

  /** A file name: something between two slashes that stands for itself. */
  ghost predicate IsName(part: string)
  {
    part != "" && part != "." && part != ".." && Free(part, '/')
  }

  ghost predicate AllNames(parts: seq<string>)
  {
    forall i :: 0 <= i < |parts| ==> IsName(parts[i])
  }

  ghost function Normals(names: seq<string>): (path: Path)
    ensures |path| == |names| && forall i :: 0 <= i < |names| ==> path[i] == Normal(names[i])
  {
    seq(|names|, i requires 0 <= i < |names| => Normal(names[i]))
  }

  lemma {:induction false} NamedOfNames(names: seq<string>)
    requires AllNames(names)
    ensures Named(names) == Normals(names)
  {
    if names != [] {
      NamedOfNames(names[1..]);
      assert Normals(names) == [Normal(names[0])] + Normals(names[1..]);
    }
  }

  lemma {:induction false} NamedConcat(xs: seq<string>, ys: seq<string>)
    ensures Named(xs + ys) == Named(xs) + Named(ys)
  {
    if xs == [] {
      assert xs + ys == ys;
    } else {
      NamedConcat(xs[1..], ys);
      assert (xs + ys)[1..] == xs[1..] + ys;
    }
  }

  lemma AbsoluteComponents(parts: seq<string>)
    requires AllFree(parts, '/')
    ensures Components(Absolute(parts)) == ROOT + Named(parts)
  {
    var joined := Join(parts, "/");
    var text := "/" + joined;
    assert text[1..] == joined;
    assert SplitOn(text, '/') == [""] + SplitOn(joined, '/');
    NamedConcat([""], SplitOn(joined, '/'));
    assert Named([""]) == [];
    if parts == [] {
      assert SplitOn(joined, '/') == [""];
    } else {
      SplitJoin(parts, '/');
    }
  }

  /** A path of names below the root has exactly those names below the root. */
  lemma ComponentsOfNames(names: seq<string>)
    requires AllNames(names)
    ensures Components(Absolute(names)) == ROOT + Normals(names)
  {
    AbsoluteComponents(names);
    NamedOfNames(names);
  }

  /** An empty part, or a dot, changes nothing. */
  lemma ComponentsSkip(xs: seq<string>, part: string, ys: seq<string>)
    requires AllFree(xs, '/') && AllFree(ys, '/') && (part == "" || part == ".")
    ensures Components(Absolute(xs + [part] + ys)) == Components(Absolute(xs + ys))
  {
    AbsoluteComponents(xs + [part] + ys);
    AbsoluteComponents(xs + ys);
    NamedConcat(xs + [part], ys);
    NamedConcat(xs, [part]);
    NamedConcat(xs, ys);
    assert Named([part]) == [];
  }

  /** Two dots are a step up, wherever they stand. */
  lemma ComponentsUp(xs: seq<string>, ys: seq<string>)
    requires AllFree(xs, '/') && AllFree(ys, '/')
    ensures Components(Absolute(xs + [".."] + ys))
         == Components(Absolute(xs)) + [ParentDir] + Components(Absolute(ys))[1..]
  {
    AbsoluteComponents(xs + [".."] + ys);
    AbsoluteComponents(xs);
    AbsoluteComponents(ys);
    NamedConcat(xs + [".."], ys);
    NamedConcat(xs, [".."]);
    assert [".."][1..] == [];
    assert Named([".."]) == [ParentDir] + Named([]);
    assert (ROOT + Named(ys))[1..] == Named(ys);
  }

  /** A path without a slash in front has only its names, after a dot if it begins with one. */
  lemma RelativeComponents(names: seq<string>)
    requires names != [] && AllNames(names)
    ensures Components(Join(names, "/")) == Normals(names)
    ensures Components("./" + Join(names, "/")) == [CurDir] + Normals(names)
  {
    NamedOfNames(names);
    SplitJoin(names, '/');
    JoinFirst(names);
    var text := "./" + Join(names, "/");
    SplitOnFirst(".", '/', Join(names, "/"));
    assert text == "." + ['/'] + Join(names, "/");
    NamedConcat(["."], names);
    assert Named(["."]) == [];
  }

  lemma JoinFirst(names: seq<string>)
    requires names != [] && AllNames(names)
    ensures Join(names, "/") != "" && Join(names, "/")[0] != '/'
  {
    assert Join(names, "/")[0] == names[0][0];
  }
}
