/**
 * The path helpers the name logic relies on: the final path segment
 * (Go's filepath.Base), the final extension (filepath.Ext) and the stem
 * (base filename with its final extension removed). Paths are byte
 * strings; '/' is the only separator.
 */
module Paths {

  /** The final '/'-separated segment of a path. */
  function Base(path: string): (name: string)
    ensures forall t :: 0 <= t < |name| ==> name[t] != '/'
    ensures |name| <= |path| && name == path[|path| - |name|..]
    ensures |name| < |path| ==> path[|path| - |name| - 1] == '/'
  {
    if |path| == 0 || path[|path| - 1] == '/' then ""
    else
      var init := path[..|path| - 1];
      var name := Base(init) + [path[|path| - 1]];
      assert path == init + [path[|path| - 1]];
      name
  }

  /** Directories are ignored: the segment after the last separator is all that Base keeps. */
  lemma {:induction false} BaseIgnoresDirectory(dir: string, name: string)
    requires '/' !in name
    ensures Base(dir + "/" + name) == name
    decreases |name|
  {
    var path := dir + "/" + name;
    if name != "" {
      var init := name[..|name| - 1];
      assert path[..|path| - 1] == dir + "/" + init;
      BaseIgnoresDirectory(dir, init);
      assert name == init + [name[|name| - 1]];
    }
  }

  /** Index of the last '.' in s, or -1 when s has none. */
  function LastDot(s: string): (i: int)
    ensures -1 <= i < |s|
    ensures i >= 0 ==> s[i] == '.'
    ensures forall t :: i < t < |s| ==> s[t] != '.'
  {
    if |s| == 0 then -1
    else if s[|s| - 1] == '.' then |s| - 1
    else LastDot(s[..|s| - 1])
  }

  /** The extension of a base filename: everything from its last '.' on, or "" when it has none. */
  function Ext(name: string): (ext: string)
    ensures |ext| <= |name| && ext == name[|name| - |ext|..]
    ensures ext == "" ==> forall t :: 0 <= t < |name| ==> name[t] != '.'
    ensures ext != "" ==> ext[0] == '.' && forall t :: 1 <= t < |ext| ==> ext[t] != '.'
  {
    var i := LastDot(name);
    if i < 0 then "" else name[i..]
  }

  /** The stem of a path: its base filename minus the final extension. */
  function Stem(path: string): (stem: string)
    ensures stem + Ext(Base(path)) == Base(path)
    ensures forall t :: 0 <= t < |stem| ==> stem[t] != '/'
  {
    var name := Base(path);
    var ext := Ext(name);
    var stem := name[..|name| - |ext|];
    assert stem + ext == name by {
      assert ext == name[|name| - |ext|..];
    }
    stem
  }
}
