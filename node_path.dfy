/**
 * The POSIX behaviour of Node's `path.join`, `path.basename` and
 * `path.dirname`, as far as the job files use them. Paths are strings; the
 * separator is the constant `Sep`.
 */
module NodePath {
  import opened JsText

  const Sep: char := '/'

  /** A segment that names an entry: not empty, no separator, neither `.` nor `..`. */
  predicate IsFileName(name: string) {
    name != [] && Sep !in name && name != "." && name != ".."
  }

  /**
   * The segments left once `.` and `..` are resolved from left to right, as
   * `path.normalize` does.
   */
  function Resolve(segs: seq<string>, absolute: bool): (r: seq<string>)
    ensures r != [] ==> r[0] != []
  {
    if segs == [] then [] else Step(Resolve(segs[..|segs| - 1], absolute), segs[|segs| - 1], absolute)
  }

  /**
   * One segment onto the resolved stack: empty segments and `.` vanish, `..`
   * removes the segment before it unless that is a `..` itself, and above
   * the start `..` is kept for a relative path and dropped for an absolute one.
   */
  function Step(st: seq<string>, seg: string, absolute: bool): (r: seq<string>)
    requires st != [] ==> st[0] != []
    ensures r != [] ==> r[0] != []
  {
    if seg == [] || seg == "." then st
    else if seg == ".." then
      (if st != [] && st[|st| - 1] != ".." then st[..|st| - 1] else if absolute then st else st + [".."])
    else st + [seg]
  }

  /**
   * `path.normalize(p)`: `.` for the empty path; otherwise the resolved
   * segments joined by single separators, with the leading separator of an
   * absolute path and the trailing separator of the input kept.
   */
  function Normalize(p: string): (r: string)
    ensures r != []
  {
    if p == [] then "."
    else
      var absolute := p[0] == Sep;
      var trailing := p[|p| - 1] == Sep;
      var st := Resolve(SplitOn(p, Sep), absolute);
      if st == [] then (if absolute then [Sep] else if trailing then "./" else ".")
      else
        var body := JoinWith(st, Sep) + (if trailing then [Sep] else []);
        if absolute then [Sep] + body else body
  }

  /**
   * `path.join(dir, name)`: the non-empty arguments joined by a separator,
   * then normalised; `.` when both are empty. The result is never empty.
   */
  function Join(dir: string, name: string): (r: string)
    ensures r != []
  {
    if dir == [] then Normalize(name)
    else if name == [] then Normalize(dir)
    else Normalize(dir + [Sep] + name)
  }

  /** What `Join(dir, name)` puts in front of a file name: empty, or ending with a separator. */
  function JoinPrefix(dir: string): string {
    if dir == [] then [] else Lead(dir) + StackPrefix(Stack(dir))
  }

  /** The separator an absolute path starts with, if it is one. */
  function Lead(p: string): string
    requires p != []
  {
    if p[0] == Sep then [Sep] else []
  }

  /** The segments of `p` once resolved. */
  function Stack(p: string): seq<string>
    requires p != []
  {
    Resolve(SplitOn(p, Sep), p[0] == Sep)
  }

  /** Resolved segments joined, each followed by a separator. */
  function StackPrefix(st: seq<string>): string {
    if st == [] then [] else JoinWith(st, Sep) + [Sep]
  }

  /** Resolving one more segment is one `Step`. */
  lemma ResolveSnoc(segs: seq<string>, seg: string, absolute: bool)
    ensures Resolve(segs + [seg], absolute) == Step(Resolve(segs, absolute), seg, absolute)
  {
    assert (segs + [seg])[..|segs|] == segs;
  }

  /** Resolving one more proper segment appends it. */
  lemma ResolveFileName(segs: seq<string>, name: string, absolute: bool)
    requires IsFileName(name)
    ensures Resolve(segs + [name], absolute) == Resolve(segs, absolute) + [name]
  {
    ResolveSnoc(segs, name, absolute);
  }

  /** Segments that resolve alike still resolve alike after the same continuation. */
  lemma {:induction false} ResolveAppend(xs: seq<string>, ys: seq<string>, tail: seq<string>, absolute: bool)
    requires Resolve(xs, absolute) == Resolve(ys, absolute)
    ensures Resolve(xs + tail, absolute) == Resolve(ys + tail, absolute)
    decreases |tail|
  {
    if tail != [] {
      var front := tail[..|tail| - 1];
      var seg := tail[|tail| - 1];
      assert tail == front + [seg];
      ResolveAppend(xs, ys, front, absolute);
      assert Resolve(xs + tail, absolute) == Step(Resolve(xs + front, absolute), seg, absolute) by {
        assert xs + tail == (xs + front) + [seg];
        ResolveSnoc(xs + front, seg, absolute);
      }
      assert Resolve(ys + tail, absolute) == Step(Resolve(ys + front, absolute), seg, absolute) by {
        assert ys + tail == (ys + front) + [seg];
        ResolveSnoc(ys + front, seg, absolute);
      }
    } else {
      assert xs + tail == xs && ys + tail == ys;
    }
  }

  /** A proper segment followed by `..` resolves to nothing. */
  lemma StepInAndOut(segs: seq<string>, name: string, absolute: bool)
    requires IsFileName(name)
    ensures Resolve(segs + [name, ".."], absolute) == Resolve(segs, absolute)
  {
    ResolveFileName(segs, name, absolute);
    assert segs + [name, ".."] == (segs + [name]) + [".."];
    ResolveSnoc(segs + [name], "..", absolute);
    var st := Resolve(segs, absolute);
    assert (st + [name])[..|st|] == st;
  }

  /** `path.normalize` of a path without a trailing separator whose segments resolve to `st`. */
  lemma NormalizeResolved(p: string, st: seq<string>)
    requires p != [] && p[|p| - 1] != Sep
    requires st == Stack(p) && st != []
    ensures Normalize(p) == Lead(p) + JoinWith(st, Sep)
  {
  }

  /** Two paths with the same first and last character whose segments resolve alike normalise alike. */
  lemma NormalizeAlike(p: string, q: string)
    requires p != [] && q != [] && p[0] == q[0] && p[|p| - 1] == q[|q| - 1]
    requires Stack(p) == Stack(q)
    ensures Normalize(p) == Normalize(q)
  {
  }

  /** A name joined onto `parent/last` after a `..` lands in `parent`: the `..` climbs out of `last`. */
  lemma ClimbOutOfDirectory(parent: string, last: string, f: string)
    requires parent != [] && IsFileName(last) && f != []
    ensures Join(parent + [Sep] + last, ".." + [Sep] + f) == Join(parent, f)
  {
    var p := parent + [Sep] + last + [Sep] + (".." + [Sep] + f);
    var q := parent + [Sep] + f;
    var pre, fs := SplitOn(parent, Sep), SplitOn(f, Sep);
    var absolute := parent[0] == Sep;
    assert Join(parent + [Sep] + last, ".." + [Sep] + f) == Normalize(p);
    assert Stack(p) == Stack(q) by {
      SplitClimb(parent, last, f);
      SplitOnConcat(parent, f, Sep);
      StepInAndOut(pre, last, absolute);
      ResolveAppend(pre + [last, ".."], pre, fs, absolute);
    }
    assert p[0] == q[0] && p[|p| - 1] == q[|q| - 1];
    NormalizeAlike(p, q);
  }

  /** The segments of `parent/last/../f`. */
  lemma SplitClimb(parent: string, last: string, f: string)
    requires Sep !in last
    ensures SplitOn(parent + [Sep] + last + [Sep] + (".." + [Sep] + f), Sep)
         == (SplitOn(parent, Sep) + [last, ".."]) + SplitOn(f, Sep)
  {
    var pre, fs := SplitOn(parent, Sep), SplitOn(f, Sep);
    var up := ".." + [Sep] + f;
    var inner := last + [Sep] + up;
    assert SplitOn(up, Sep) == [".."] + fs by {
      SplitOnConcat("..", f, Sep);
      SplitOnAbsent("..", Sep);
    }
    assert SplitOn(inner, Sep) == [last] + ([".."] + fs) by {
      SplitOnConcat(last, up, Sep);
      SplitOnAbsent(last, Sep);
    }
    assert SplitOn(parent + [Sep] + last + [Sep] + up, Sep) == pre + ([last] + ([".."] + fs)) by {
      assert parent + [Sep] + last + [Sep] + up == parent + [Sep] + inner;
      SplitOnConcat(parent, inner, Sep);
    }
    assert pre + ([last] + ([".."] + fs)) == (pre + [last, ".."]) + fs;
  }

  /** A file name alone is its own normal form. */
  lemma NormalizeFileName(name: string)
    requires IsFileName(name)
    ensures Normalize(name) == name
  {
    SplitOnAbsent(name, Sep);
    ResolveFileName([], name, false);
    assert [] + [name] == [name];
    assert name[0] in name && name[|name| - 1] in name;
    NormalizeResolved(name, [name]);
  }

  /** The segments of `dir/name` are those of `dir` followed by `name`, resolved alike. */
  lemma ResolveJoined(dir: string, name: string)
    requires dir != [] && IsFileName(name)
    ensures Stack(dir + [Sep] + name) == Stack(dir) + [name]
  {
    SplitOnAbsent(name, Sep);
    SplitOnConcat(dir, name, Sep);
    ResolveFileName(SplitOn(dir, Sep), name, dir[0] == Sep);
  }

  /** Joining a file name puts it after the directory's prefix. */
  lemma JoinFileName(dir: string, name: string)
    requires IsFileName(name)
    ensures Join(dir, name) == JoinPrefix(dir) + name
    ensures JoinPrefix(dir) == [] || JoinPrefix(dir)[|JoinPrefix(dir)| - 1] == Sep
  {
    if dir == [] {
      NormalizeFileName(name);
    } else {
      JoinFileNameOnto(dir, name);
    }
    JoinPrefixEndsWithSep(dir);
  }

  /** The prefix is empty or ends with a separator. */
  lemma JoinPrefixEndsWithSep(dir: string)
    ensures JoinPrefix(dir) == [] || JoinPrefix(dir)[|JoinPrefix(dir)| - 1] == Sep
  {
  }

  /** `JoinFileName` for a non-empty directory. */
  lemma JoinFileNameOnto(dir: string, name: string)
    requires dir != [] && IsFileName(name)
    ensures Join(dir, name) == JoinPrefix(dir) + name
  {
    var lead, sp := Lead(dir), StackPrefix(Stack(dir));
    assert JoinPrefix(dir) == lead + sp;
    assert Join(dir, name) == lead + (sp + name) by {
      JoinAsResolved(dir, name);
      JoinWithAfter(Stack(dir), name);
    }
    assert lead + (sp + name) == (lead + sp) + name;
  }

  /** `dir/name` normalises to the resolved segments of `dir` with `name` after them. */
  lemma JoinAsResolved(dir: string, name: string)
    requires dir != [] && IsFileName(name)
    ensures Join(dir, name) == Lead(dir) + JoinWith(Stack(dir) + [name], Sep)
  {
    var p := dir + [Sep] + name;
    assert p[0] == dir[0];
    assert p[|p| - 1] == name[|name| - 1] by {
      assert name[|name| - 1] in name;
    }
    ResolveJoined(dir, name);
    NormalizeResolved(p, Stack(dir) + [name]);
  }

  /** Joining the resolved segments and then one more piece. */
  lemma JoinWithAfter(st: seq<string>, name: string)
    ensures JoinWith(st + [name], Sep) == StackPrefix(st) + name
  {
    if st != [] {
      JoinWithSnoc(st, name, Sep);
    } else {
      assert st + [name] == [name];
    }
  }

  /** A normalised directory other than `.` and the root, without a trailing separator. */
  predicate IsDirectory(dir: string) {
    dir != [] && dir != "." && dir[|dir| - 1] != Sep && Normalize(dir) == dir
  }

  /** Joining a file name onto a normalised directory adds one separator and the name. */
  lemma JoinOntoDirectory(dir: string, name: string)
    requires IsDirectory(dir) && IsFileName(name)
    ensures Join(dir, name) == dir + [Sep] + name
  {
    var lead, st := Lead(dir), Stack(dir);
    assert st != [];
    assert dir == lead + JoinWith(st, Sep) by {
      NormalizeResolved(dir, st);
    }
    assert JoinPrefix(dir) == dir + [Sep] by {
      assert JoinPrefix(dir) == lead + (JoinWith(st, Sep) + [Sep]);
    }
    JoinFileName(dir, name);
  }

  /** The path without its trailing separators. */
  function StripTrailingSeps(p: string): (q: string)
    ensures q <= p
    ensures q == [] || q[|q| - 1] != Sep
  {
    if |p| > 0 && p[|p| - 1] == Sep then StripTrailingSeps(p[..|p| - 1]) else p
  }

  /** What follows the last separator. */
  function AfterLastSep(q: string): (r: string)
    ensures Sep !in r
    ensures |r| <= |q|
  {
    if |q| == 0 || q[|q| - 1] == Sep then []
    else AfterLastSep(q[..|q| - 1]) + [q[|q| - 1]]
  }

  /** `path.basename(p)`: the last non-empty segment, or "" when there is none. */
  function Basename(p: string): (b: string)
    ensures Sep !in b
  {
    AfterLastSep(StripTrailingSeps(p))
  }

  /**
   * The scan of `path.dirname`: from index `i` down to 1, the first separator
   * met after a non-separator has been seen; -1 when there is none.
   */
  function DirEnd(p: string, i: int, matchedSlash: bool): (e: int)
    requires i < |p|
    ensures e == -1 || 1 <= e <= i
    ensures e != -1 ==> p[e] == Sep
    decreases i
  {
    if i < 1 then -1
    else if p[i] == Sep then (if matchedSlash then DirEnd(p, i - 1, true) else i)
    else DirEnd(p, i - 1, false)
  }

  /** `path.dirname(p)`. */
  function Dirname(p: string): (r: string)
    ensures r != []
    ensures r == "." || r <= p
  {
    if |p| == 0 then "."
    else
      var end := DirEnd(p, |p| - 1, true);
      if end == -1 then (if p[0] == Sep then [Sep] else ".")
      else if p[0] == Sep && end == 1 then [Sep, Sep]
      else p[..end]
  }

  lemma {:induction false} AfterLastSepOfSuffix(x: string, name: string)
    requires Sep !in name
    requires x == [] || x[|x| - 1] == Sep
    ensures AfterLastSep(x + name) == name
    decreases |name|
  {
    if name == [] {
      assert x + name == x;
    } else {
      var init := name[..|name| - 1];
      var c := name[|name| - 1];
      var p := x + name;
      assert p[|p| - 1] == c && c in name;
      assert p[..|p| - 1] == x + init;
      assert name == init + [c];
      AfterLastSepOfSuffix(x, init);
    }
  }

  /** The base name of a joined path is the file name that was joined. */
  lemma BasenameOfJoin(dir: string, name: string)
    requires IsFileName(name)
    ensures Basename(Join(dir, name)) == name
  {
    var p := Join(dir, name);
    var x := JoinPrefix(dir);
    JoinFileName(dir, name);
    assert StripTrailingSeps(p) == p by {
      assert p[|p| - 1] == name[|name| - 1];
      assert name[|name| - 1] in name;
    }
    AfterLastSepOfSuffix(x, name);
  }

  lemma {:induction false} DirEndFindsSep(p: string, i: int, m: int, matchedSlash: bool)
    requires 1 <= m < i < |p|
    requires p[m] == Sep
    requires forall k :: m < k <= i ==> p[k] != Sep
    ensures DirEnd(p, i, matchedSlash) == m
    decreases i
  {
    if i - 1 > m {
      DirEndFindsSep(p, i - 1, m, false);
    }
  }

  /** The directory part of a joined path is the directory that was joined. */
  lemma DirnameOfJoin(dir: string, name: string)
    requires IsDirectory(dir) && IsFileName(name)
    ensures Dirname(Join(dir, name)) == dir
  {
    JoinOntoDirectory(dir, name);
    DirnameOfChild(dir, name);
  }

  /** The directory part of `dir/name` is `dir`. */
  lemma DirnameOfChild(dir: string, name: string)
    requires dir != [] && dir[|dir| - 1] != Sep && IsFileName(name)
    ensures Dirname(dir + [Sep] + name) == dir
  {
    var p := dir + [Sep] + name;
    forall k | |dir| < k <= |p| - 1
      ensures p[k] != Sep
    {
      assert p[k] == name[k - |dir| - 1];
    }
    DirEndFindsSep(p, |p| - 1, |dir|, true);
    assert p[..|dir|] == dir;
  }
}
