/** File names and paths as `FileInfo`, `Path.GetFileNameWithoutExtension`
    and `Path.Combine` see them, with `/` as the directory separator. */
module Paths {
  import opened Wrappers

  predicate EndsWith(s: string, suffix: string)
  {
    |suffix| <= |s| && s[|s| - |suffix|..] == suffix
  }

  /** Index of the last `.` of a file name, if there is one. */
  function LastDot(name: string): (r: Option<nat>)
    ensures r.Some? ==> r.value < |name| && name[r.value] == '.'
    ensures r.Some? ==> forall i :: r.value < i < |name| ==> name[i] != '.'
    ensures r.None? ==> forall i :: 0 <= i < |name| ==> name[i] != '.'
  {
    if name == [] then None
    else if name[|name| - 1] == '.' then Some(|name| - 1)
    else LastDot(name[..|name| - 1])
  }

  /** `FileInfo.Extension`: from the last dot to the end (a trailing dot is
      kept as `.`), or empty when the name has no dot. */
  function Extension(name: string): (e: string)
    ensures EndsWith(name, e)
    ensures e == [] <==> '.' !in name
    ensures e != [] ==> e[0] == '.' && '.' !in e[1..]
  {
    match LastDot(name)
    case None => ""
    case Some(i) =>
      assert name[i..][1..] == name[i + 1..];
      name[i..]
  }

  /** `Path.GetFileNameWithoutExtension`: everything before the last dot. */
  function Stem(name: string): (r: string)
    ensures |r| <= |name| && r == name[..|r|]
    ensures '.' !in name ==> r == name
  {
    match LastDot(name)
    case None => name
    case Some(i) => name[..i]
  }

  /** A name is its stem followed by its extension, which is empty or a dot
      followed by no further dot. */
  lemma StemAndExtension(name: string)
    ensures var e := Extension(name);
      e == [] || (|e| >= 1 && e[0] == '.' && forall i :: 1 <= i < |e| ==> e[i] != '.')
    ensures Stem(name) + Extension(name) == name
  {
    match LastDot(name)
    case None =>
    case Some(i) =>
      assert name[..i] + name[i..] == name;
      var e := Extension(name);
      forall k | 1 <= k < |e| ensures e[k] != '.' {
        assert e[k] == name[i + k];
      }
  }

  /** `Path.Combine(dir, file)` with `/` as the only separator: an empty part
      yields the other, a rooted `file` replaces `dir`, and a separator is put
      between them unless `dir` already ends with one. */
  function Combine(dir: string, file: string): (r: string)
    ensures file == [] ==> r == dir
    ensures EndsWith(r, file)
    ensures file != [] && file[0] != '/' && dir != [] ==> |r| > |dir| && r[..|dir|] == dir
  {
    if file == [] then dir
    else if dir == [] then file
    else if file[0] == '/' then file
    else if dir[|dir| - 1] == '/' then dir + file
    else dir + "/" + file
  }

  /** What `Combine` puts in front of a non-empty `file`: it depends on the
      directory and on the file's first character only. */
  function Lead(dir: string, first: char): string
  {
    if dir == [] || first == '/' then []
    else if dir[|dir| - 1] == '/' then dir
    else dir + "/"
  }

  /** A combined path is the lead followed by the file name, so it ends with
      the file name. */
  lemma CombineLead(dir: string, file: string)
    requires file != []
    ensures Combine(dir, file) == Lead(dir, file[0]) + file
    ensures EndsWith(Combine(dir, file), file)
  {
    var c := Combine(dir, file);
    var l := Lead(dir, file[0]);
    assert c == l + file;
    assert c[|c| - |file|..] == file;
  }

  /** `path` names an entry directly inside `dir`: `dir` combined with a
      non-empty name that holds no separator. */
  ghost predicate InDirectory(path: string, dir: string)
  {
    exists x :: x != [] && '/' !in x && path == Combine(dir, x)
  }

  /** Combining a non-empty `dir` with a relative name that holds a separator
      gives a path that is not directly inside `dir`. */
  lemma NestedNotInDirectory(dir: string, file: string)
    requires dir != [] && file != [] && file[0] != '/' && '/' in file
    ensures !InDirectory(Combine(dir, file), dir)
  {
    forall x | '/' !in x ensures Combine(dir, x) != Combine(dir, file) {
      CombineOther(dir, file, x);
    }
  }

  /** A name without a separator combines to another path than one with. */
  lemma CombineOther(dir: string, file: string, x: string)
    requires dir != [] && file != [] && file[0] != '/' && '/' in file && '/' !in x
    ensures Combine(dir, x) != Combine(dir, file)
  {
    if x != [] {
      assert x[0] != '/' by { assert x[0] in x; }
      CombineLead(dir, x);
      CombineLead(dir, file);
      assert Lead(dir, x[0]) == Lead(dir, file[0]);
    }
  }

  /** A string ends with whatever was appended to it last. */
  lemma EndsWithConcat(front: string, suffix: string)
    ensures EndsWith(front + suffix, suffix)
  {
    assert (front + suffix)[|front|..] == suffix;
  }

  /** Ending with is transitive. */
  lemma EndsWithTrans(a: string, b: string, c: string)
    requires EndsWith(a, b) && EndsWith(b, c)
    ensures EndsWith(a, c)
  {
    assert a[|a| - |c|..] == a[|a| - |b|..][|b| - |c|..];
  }

  /** Appending a name part that holds a separator, but does not start with
      one, to a name without separators leaves the directory. */
  lemma AppendedNotInDirectory(dir: string, front: string, ext: string)
    requires dir != [] && '/' !in front && ext != [] && ext[0] != '/' && '/' in ext
    ensures !InDirectory(Combine(dir, front + ext), dir)
  {
    var file := front + ext;
    assert file[0] != '/' by {
      if front != [] { assert front[0] in front; } else { assert file[0] == ext[0]; }
    }
    assert '/' in file by {
      var i :| 0 <= i < |ext| && ext[i] == '/';
      assert file[|front| + i] == '/';
    }
    NestedNotInDirectory(dir, file);
  }
}
