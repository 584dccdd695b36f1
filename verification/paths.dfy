/** `pathlib.Path(p).name` for POSIX paths. */
module Paths {
  import opened Text

  /** The final component of `path`: empty and `.` components are skipped, as pathlib
      normalises them away, and the result is "" when no component is left. */
  function FileName(path: string): string
    decreases |path|
  {
    var tail := AfterLast(path, '/');
    if tail != "" && tail != "." then tail
    else if |tail| == |path| then ""
    else FileName(path[..|path| - |tail| - 1])
  }

  /** The name is one path component: it holds no `/` and is never `.`. */
  lemma {:induction false} FileNameIsComponent(path: string)
    ensures '/' !in FileName(path) && FileName(path) != "."
    decreases |path|
  {
    var tail := AfterLast(path, '/');
    AfterLastIsSuffix(path, '/');
    if !(tail != "" && tail != ".") && |tail| != |path| {
      FileNameIsComponent(path[..|path| - |tail| - 1]);
    }
  }

  /** A bare file name is its own final component. */
  lemma FileNameOfName(name: string)
    requires '/' !in name && name != "" && name != "."
    ensures FileName(name) == name
  {
    NoSeparatorIsWhole(name, '/');
  }

  /** The directory part is discarded: the name is the same from any working directory. */
  lemma FileNameUnderDirectory(dir: string, name: string)
    requires '/' !in name && name != "" && name != "."
    ensures FileName(dir + "/" + name) == name
  {
    AfterLastOfJoin(dir, '/', name);
  }

  /** A trailing slash does not change the name. */
  lemma FileNameIgnoresTrailingSlash(path: string)
    ensures FileName(path + "/") == FileName(path)
  {
    assert (path + "/")[..|path|] == path;
  }

  /** Taking the name of a name changes nothing. */
  lemma FileNameIdempotent(path: string)
    ensures FileName(FileName(path)) == FileName(path)
  {
    var name := FileName(path);
    FileNameIsComponent(path);
    if name != "" {
      FileNameOfName(name);
    }
  }
}
