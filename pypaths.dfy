/** The two `os.path` operations the tool uses, for POSIX paths. */
module PyPaths {
  import opened PyStrings

  /** `os.path.join(directory, name)`. */
  function JoinPath(directory: string, name: string): (path: string)
    ensures EndsWith(path, name)
  {
    if StartsWith(name, "/") then name
    else if directory == [] || EndsWith(directory, "/") then directory + name
    else directory + "/" + name
  }

  /** `os.path.split(path)[1]`: everything after the last `/`. */
  function BaseName(path: string): (name: string)
    ensures '/' !in name
    ensures EndsWith(path, name)
    ensures |name| < |path| ==> path[|path| - |name| - 1] == '/'
    decreases |path|
  {
    if path == [] || path[|path| - 1] == '/' then []
    else BaseName(path[..|path| - 1]) + [path[|path| - 1]]
  }

  lemma {:induction false} BaseNameAfterSlash(prefix: string, name: string)
    requires prefix == [] || prefix[|prefix| - 1] == '/'
    requires '/' !in name
    ensures BaseName(prefix + name) == name
    decreases |name|
  {
    if name != [] {
      var path := prefix + name;
      var init, last := name[..|name| - 1], name[|name| - 1];
      assert path[|path| - 1] == last && last != '/';
      assert path[..|path| - 1] == prefix + init;
      BaseNameAfterSlash(prefix, init);
      assert init + [name[|name| - 1]] == name;
    } else {
      assert prefix + name == prefix;
    }
  }

  /** Whatever the directory, the last component of the joined path is the file name. */
  lemma BaseNameOfJoin(directory: string, name: string)
    requires name != [] && '/' !in name
    ensures BaseName(JoinPath(directory, name)) == name
  {
    assert !StartsWith(name, "/") by { assert name[0] != '/'; }
    if directory == [] || EndsWith(directory, "/") {
      BaseNameAfterSlash(directory, name);
    } else {
      BaseNameAfterSlash(directory + "/", name);
      assert directory + "/" + name == (directory + "/") + name;
    }
  }
}
