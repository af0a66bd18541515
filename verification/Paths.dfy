/** Unix paths as `std::path` takes them: a sequence of components, by which they are compared. */
module Paths {
  import opened Wrappers
  import SortedMaps

  datatype Component = RootDir | CurDir | ParentDir | Normal(name: string)

  /** What stands behind the last slash. */
  function AfterLastSlash(path: string): (name: string)
    ensures |name| <= |path|
    ensures path != "" && path[|path| - 1] != '/' ==> name != ""
    decreases |path|
  {
    if path == "" || path[|path| - 1] == '/' then ""
    else AfterLastSlash(path[..|path| - 1]) + [path[|path| - 1]]
  }

  /** The non-empty pieces between slashes. */
  function Names(path: string): seq<string>
    decreases |path|
  {
    if path == "" then []
    else if path[|path| - 1] == '/' then Names(path[..|path| - 1])
    else
      var name := AfterLastSlash(path);
      Names(path[..|path| - |name|]) + [name]
  }

  function NamedComponents(names: seq<string>): seq<Component> {
    if names == [] then []
    else
      var rest := NamedComponents(names[1..]);
      if names[0] == "." then rest
      else if names[0] == ".." then [ParentDir] + rest
      else [Normal(names[0])] + rest
  }

  /** `Path::components`: repeated and trailing slashes do not count, nor does `.` but at the head of a
      relative path. */
  function Components(path: string): seq<Component> {
    var names := Names(path);
    var head :=
      if path != "" && path[0] == '/' then [RootDir]
      else if names != [] && names[0] == "." then [CurDir]
      else [];
    head + NamedComponents(names)
  }

  /** `Path::file_name`. */
  function FileName(path: string): Option<string> {
    var components := Components(path);
    if components != [] && components[|components| - 1].Normal? then Some(components[|components| - 1].name) else None
  }

  lemma {:induction false} AfterLastSlashOfName(path: string)
    requires '/' !in path
    ensures AfterLastSlash(path) == path
    decreases |path|
  {
    if path != "" {
      assert path == path[..|path| - 1] + [path[|path| - 1]];
      AfterLastSlashOfName(path[..|path| - 1]);
    }
  }

  /** A name by itself is its own file name. */
  lemma FileNameOfName(name: string)
    requires IsName(name)
    ensures FileName(name) == Some(name)
  {
    AfterLastSlashOfName(name);
    assert name[..|name| - |name|] == "";
    assert Names(name) == [name];
    assert NamedComponents([name]) == [Normal(name)];
  }

  /** Paths that are spelled differently can be the same path. */
  lemma {:induction false} TrailingSlashesDoNotCount(path: string, slashes: string)
    requires path != "" && forall i :: 0 <= i < |slashes| ==> slashes[i] == '/'
    ensures Components(path + slashes) == Components(path)
    decreases |slashes|
  {
    if slashes == "" {
      assert path + slashes == path;
    } else {
      var shorter := slashes[..|slashes| - 1];
      assert (path + slashes)[..|path + slashes| - 1] == path + shorter;
      TrailingSlashesDoNotCount(path, shorter);
      assert (path + slashes)[0] == path[0] == (path + shorter)[0];
    }
  }

  lemma {:induction false} NamedComponentsAppend(a: seq<string>, b: seq<string>)
    ensures NamedComponents(a + b) == NamedComponents(a) + NamedComponents(b)
  {
    if a == [] {
      assert a + b == b;
    } else {
      assert (a + b)[1..] == a[1..] + b;
      NamedComponentsAppend(a[1..], b);
    }
  }

  /** Adding characters other than slashes behind a slash adds them to the name. */
  lemma {:induction false} AfterLastSlashAppend(path: string, name: string)
    requires '/' !in name && (path == "" || path[|path| - 1] == '/')
    ensures AfterLastSlash(path + name) == name
    decreases |name|
  {
    if name == "" {
      assert path + name == path;
    } else {
      var k := |name| - 1;
      assert name == name[..k] + [name[k]];
      assert (path + name)[..|path + name| - 1] == path + name[..k];
      AfterLastSlashAppend(path, name[..k]);
    }
  }

  lemma NamesOfChild(directory: string, name: string)
    requires name != "" && '/' !in name
    ensures Names(directory + "/" + name) == Names(directory) + [name]
  {
    var slashed := directory + "/";
    var all := slashed + name;
    AfterLastSlashAppend(slashed, name);
    assert all[|all| - 1] == name[|name| - 1] && name[|name| - 1] in name;
    assert all[..|all| - |name|] == slashed;
    assert slashed[..|slashed| - 1] == directory;
  }

  predicate IsName(name: string) {
    name != "" && '/' !in name && name != "." && name != ".."
  }

  /** Behind any directory, and the empty one stands for the root, a name is one more component. */
  lemma ComponentsOfChild(directory: string, name: string)
    requires IsName(name)
    ensures Components(directory + "/" + name)
         == (if directory == "" then [RootDir] else Components(directory)) + [Normal(name)]
  {
    var all := directory + "/" + name;
    NamesOfChild(directory, name);
    NamedComponentsAppend(Names(directory), [name]);
    assert NamedComponents([name]) == [Normal(name)];
    if directory == "" {
      assert all[0] == '/' && Names(directory) == [];
    } else {
      assert all[0] == directory[0];
      if directory[0] != '/' {
        RelativePathHasNames(directory);
        assert (Names(directory) + [name])[0] == Names(directory)[0];
      }
    }
  }

  /** The parent directory is a component, too. */
  lemma ComponentsOfParent(directory: string)
    requires directory != ""
    ensures Components(directory + "/..") == Components(directory) + [ParentDir]
  {
    var all := directory + "/..";
    assert all == directory + "/" + "..";
    NamesOfChild(directory, "..");
    NamedComponentsAppend(Names(directory), [".."]);
    assert NamedComponents([".."]) == [ParentDir];
    assert all[0] == directory[0];
    if directory[0] != '/' {
      RelativePathHasNames(directory);
      assert (Names(directory) + [".."])[0] == Names(directory)[0];
    }
  }

  /** A name behind any directory is the file name, and a parent directory has none. */
  lemma FileNameOfChild(directory: string, name: string)
    requires IsName(name)
    ensures FileName(directory + "/" + name) == Some(name)
    ensures directory != "" ==> FileName(directory + "/..") == None
  {
    ComponentsOfChild(directory, name);
    if directory != "" {
      ComponentsOfParent(directory);
    }
  }

  lemma NamedComponentsOfOne(name: string)
    ensures NamedComponents([name]) == if name == "." then [] else if name == ".." then [ParentDir] else [Normal(name)]
  {
    assert [name][1..] == [];
  }

  lemma ComponentsOfName(path: string)
    requires path != "" && '/' !in path
    ensures Components(path) == if path == "." then [CurDir] else if path == ".." then [ParentDir] else [Normal(path)]
  {
    NamesOfOne(path);
    NamedComponentsOfOne(path);
    assert path[0] in path;
    assert [CurDir] + [] == [CurDir];
  }

  /** The paths that no name or parent is joined to: the empty one has no component, the root and the current
      directory are one each, and so are a name and the parent directory by themselves. */
  lemma ComponentsOfOne(path: string)
    ensures path == "" ==> Components(path) == []
    ensures path == "/" ==> Components(path) == [RootDir]
    ensures path == "." ==> Components(path) == [CurDir]
    ensures path == ".." ==> Components(path) == [ParentDir]
    ensures IsName(path) ==> Components(path) == [Normal(path)]
  {
    if path == "/" {
      assert path[..|path| - 1] == "";
      assert Names(path) == [];
      assert [RootDir] + NamedComponents([]) == [RootDir];
    } else if path != "" && '/' !in path {
      ComponentsOfName(path);
    }
  }

  lemma NamesOfOne(name: string)
    requires name != "" && '/' !in name
    ensures Names(name) == [name]
  {
    assert name[|name| - 1] in name;
    AfterLastSlashOfName(name);
    assert name[..|name| - |name|] == "";
  }

  lemma {:induction false} RelativePathHasNames(path: string)
    requires path != "" && path[0] != '/'
    ensures Names(path) != []
    decreases |path|
  {
    if path[|path| - 1] == '/' {
      RelativePathHasNames(path[..|path| - 1]);
    }
  }

  lemma {:induction false} DotNamesNothing(names: seq<string>)
    ensures NamedComponents(names + ["."]) == NamedComponents(names)
  {
    if names == [] {
      assert NamedComponents([] + ["."]) == [];
    } else {
      assert (names + ["."])[1..] == names[1..] + ["."];
      DotNamesNothing(names[1..]);
    }
  }

  lemma NamesBeforeDot(path: string)
    requires path != ""
    ensures Names(path + "/.") == Names(path) + ["."]
  {
    var all := path + "/.";
    var slashed := path + "/";
    assert all[..|all| - 1] == slashed && slashed[..|slashed| - 1] == path;
    assert AfterLastSlash(slashed) == "";
    assert AfterLastSlash(all) == ".";
  }

  /** Nor does a `.` at the end count. */
  lemma TrailingDotDoesNotCount(path: string)
    requires path != ""
    ensures Components(path + "/.") == Components(path)
  {
    NamesBeforeDot(path);
    DotNamesNothing(Names(path));
    assert (path + "/.")[0] == path[0];
    if path[0] != '/' {
      RelativePathHasNames(path);
      assert (Names(path) + ["."])[0] == Names(path)[0];
    }
  }

  // ---------------------------------------------------------------- the order of paths

  function Rank(c: Component): nat {
    match c
    case RootDir => 0
    case CurDir => 1
    case ParentDir => 2
    case Normal(_) => 3
  }

  predicate ComponentLess(c: Component, d: Component) {
    Rank(c) < Rank(d) || (c.Normal? && d.Normal? && SortedMaps.StringLess(c.name, d.name))
  }

  predicate PathLess(a: seq<Component>, b: seq<Component>) {
    SortedMaps.LexLess(a, b, ComponentLess)
  }

  /** Paths are compared at the first component where they differ: the root directory comes before `.`, that
      before `..`, and that before any name; names are compared as strings. */
  lemma PathLessIff(a: seq<Component>, b: seq<Component>)
    ensures PathLess(a, b) <==>
            exists k :: 0 <= k <= |a| && k < |b| && a[..k] == b[..k]
                        && (k == |a|
                            || (a[k].RootDir? && !b[k].RootDir?)
                            || (a[k].CurDir? && (b[k].ParentDir? || b[k].Normal?))
                            || (a[k].ParentDir? && b[k].Normal?)
                            || (a[k].Normal? && b[k].Normal? && SortedMaps.StringLess(a[k].name, b[k].name)))
  {
    SortedMaps.LexLessIff(a, b, ComponentLess);
  }

  lemma ComponentLessIsStrictTotalOrder()
    ensures SortedMaps.StrictTotalOrder(ComponentLess)
  {
    SortedMaps.StringLessIsStrictTotalOrder();
    forall c, d: Component | c != d ensures ComponentLess(c, d) || ComponentLess(d, c) {
      if c.Normal? && d.Normal? {
        assert c.name != d.name;
      }
    }
  }

  lemma PathLessIsStrictTotalOrder()
    ensures SortedMaps.StrictTotalOrder(PathLess)
  {
    ComponentLessIsStrictTotalOrder();
    forall a ensures !PathLess(a, a) {
      SortedMaps.LexIrreflexive(a, ComponentLess);
    }
    forall a, b, c | PathLess(a, b) && PathLess(b, c) ensures PathLess(a, c) {
      SortedMaps.LexTransitive(a, b, c, ComponentLess);
    }
    forall a, b: seq<Component> | a != b ensures PathLess(a, b) || PathLess(b, a) {
      SortedMaps.LexConnected(a, b, ComponentLess);
    }
  }
}
