/** The Word package as a zip archive of named members, and the scratch tree it
    is extracted into: a map from relative path to file contents plus the set of
    directories that archive members named explicitly. */
module Package {

  type Bytes = seq<bv8>
  type Path = string

  /** How an archive member's data is stored. */
  datatype Compression = Stored | Deflated

  datatype Member = Member(name: Path, data: Bytes, compression: Compression)

  /** Members in archive order. */
  type Archive = seq<Member>

  /** A member whose name ends in a slash stands for a directory
      (`ZipInfo.is_dir`). */
  predicate IsDirName(name: Path) {
    |name| > 0 && name[|name| - 1] == '/'
  }

  function DirOf(name: Path): Path
    requires IsDirName(name)
  {
    name[..|name| - 1]
  }

  /** A directory tree: regular files with their contents, and directories
      created on their own (which may be empty). Parent directories of a path
      exist implicitly. */
  datatype Tree = Tree(files: map<Path, Bytes>, dirs: set<Path>) {
    function Paths(): set<Path> {
      files.Keys + dirs
    }
  }

  /** `extractall`: directory members create directories, every other member
      writes its data to its path, and a later member of the same name
      overwrites an earlier one. */
  function Unpack(a: Archive): (t: Tree)
    ensures forall p :: p in t.files ==> !IsDirName(p)
  {
    if a == [] then Tree(map[], {})
    else
      var t := Unpack(a[..|a| - 1]);
      var m := a[|a| - 1];
      if IsDirName(m.name) then t.(dirs := t.dirs + {DirOf(m.name)})
      else t.(files := t.files[m.name := m.data])
  }

  /** Extraction makes a file for every non-directory member name and for
      nothing else. */
  lemma {:induction false} UnpackFileNames(a: Archive)
    ensures forall p :: p in Unpack(a).files <==> !IsDirName(p) && exists i :: 0 <= i < |a| && a[i].name == p
  {
    if a != [] {
      var a' := a[..|a| - 1];
      UnpackFileNames(a');
      assert forall i :: 0 <= i < |a'| ==> a'[i] == a[i];
    }
  }

  /** Each extracted file holds the data of the last member of its name. */
  lemma {:induction false} UnpackLastWins(a: Archive, p: Path)
    requires p in Unpack(a).files
    ensures exists i :: 0 <= i < |a| && a[i].name == p && Unpack(a).files[p] == a[i].data &&
                        forall j :: i < j < |a| ==> a[j].name != p
  {
    var a' := a[..|a| - 1];
    var m := a[|a| - 1];
    if m.name == p && !IsDirName(m.name) {
      assert a[|a| - 1].name == p;
    } else {
      UnpackLastWins(a', p);
      var i :| 0 <= i < |a'| && a'[i].name == p && Unpack(a').files[p] == a'[i].data &&
               forall j :: i < j < |a'| ==> a'[j].name != p;
      assert a[i] == a'[i];
      assert forall j :: i < j < |a'| ==> a[j] == a'[j];
    }
  }

  /** Extraction makes a directory for every directory member and for no other. */
  lemma {:induction false} UnpackDirs(a: Archive)
    ensures forall d :: d in Unpack(a).dirs <==>
              exists i :: 0 <= i < |a| && IsDirName(a[i].name) && DirOf(a[i].name) == d
  {
    if a != [] {
      var a' := a[..|a| - 1];
      UnpackDirs(a');
      assert forall i :: 0 <= i < |a'| ==> a'[i] == a[i];
    }
  }

  /** `path` has `dir` as a proper ancestor. */
  predicate IsUnder(path: Path, dir: Path) {
    |dir| + 1 < |path| && path[..|dir| + 1] == dir + "/"
  }

  /** `os.path.isdir`: named as a directory, or the ancestor of some path. */
  predicate IsDirectory(t: Tree, dir: Path): (b: bool)
    ensures b <==> dir in t.dirs || Children(t, dir) != {}
  {
    dir in t.dirs || exists q :: q in t.Paths() && IsUnder(q, dir)
  }

  /** `os.path.exists`. */
  predicate Exists(t: Tree, path: Path): (b: bool)
    ensures b <==> path in t.files || path in t.dirs || Children(t, path) != {}
  {
    path in t.files || IsDirectory(t, path)
  }

  /** The first component of a relative path. */
  function FirstComponent(s: Path): (r: Path)
    ensures r <= s && '/' !in r
    ensures '/' !in s ==> r == s
    ensures |r| < |s| ==> s[|r|] == '/'
  {
    if s == [] || s[0] == '/' then []
    else [s[0]] + FirstComponent(s[1..])
  }

  /** The names `os.listdir(dir)` reports: the first component below `dir` of
      every path under it. */
  function Children(t: Tree, dir: Path): (r: set<string>)
    ensures forall n :: n in r ==> '/' !in n
    ensures r != {} <==> exists q :: q in t.Paths() && IsUnder(q, dir)
  {
    var r := set q | q in t.Paths() && IsUnder(q, dir) :: FirstComponent(q[|dir| + 1..]);
    assert (exists q :: q in t.Paths() && IsUnder(q, dir)) ==> r != {} by {
      if exists q :: q in t.Paths() && IsUnder(q, dir) {
        var q :| q in t.Paths() && IsUnder(q, dir);
        assert FirstComponent(q[|dir| + 1..]) in r;
      }
    }
    r
  }

  /** Every listed name is a whole entry just below `dir`: some path under
      `dir` continues with that name and then ends or reaches a slash. */
  lemma ChildIsEntry(t: Tree, dir: Path, n: string)
    requires n in Children(t, dir)
    ensures exists q :: && q in t.Paths() && IsUnder(q, dir) && |dir| + 1 + |n| <= |q|
                        && q[|dir| + 1..|dir| + 1 + |n|] == n
                        && (|q| == |dir| + 1 + |n| || q[|dir| + 1 + |n|] == '/')
  {
    var q :| q in t.Paths() && IsUnder(q, dir) && n == FirstComponent(q[|dir| + 1..]);
    var rest := q[|dir| + 1..];
    assert n <= rest && (|n| < |rest| ==> rest[|n|] == '/');
    assert q[|dir| + 1..|dir| + 1 + |n|] == rest[..|n|] == n;
    assert |n| < |rest| ==> q[|dir| + 1 + |n|] == rest[|n|];
  }

  /** The directory that holds the embedded images of a Word package. */
  const MediaDir: Path := "word/media"

  /** `os.path.join(media_dir, name)`, relative to the scratch root. */
  function MediaPath(name: string): (r: Path)
    ensures |r| == |MediaDir| + 1 + |name|
    ensures r[..|MediaDir| + 1] == "word/media/" && r[|MediaDir| + 1..] == name
  {
    MediaDir + "/" + name
  }

  /** Distinct names give distinct media paths. */
  lemma MediaPathInjective(a: string, b: string)
    ensures MediaPath(a) == MediaPath(b) <==> a == b
  {
    if MediaPath(a) == MediaPath(b) {
      assert a == MediaPath(a)[|MediaDir| + 1..];
      assert b == MediaPath(b)[|MediaDir| + 1..];
    }
  }

  /** Every file or directory directly inside the media directory is among the
      names listed for it. */
  lemma DirectChildListed(t: Tree, name: string)
    requires name != [] && '/' !in name
    requires MediaPath(name) in t.Paths()
    ensures name in Children(t, MediaDir)
    ensures IsDirectory(t, MediaDir)
  {
  }

  /** A path that starts with a slash-free name followed by a slash has that
      name as its first component. */
  lemma FirstComponentStops(s: Path, name: string)
    requires '/' !in name && |name| < |s| && s[..|name|] == name && s[|name|] == '/'
    ensures FirstComponent(s) == name
  {
  }

  /** A directory inside the media directory that has no member of its own but
      holds some path is listed too, as `os.listdir` lists the implicit parent
      of an extracted file. */
  lemma NestedChildListed(t: Tree, name: string, q: Path)
    requires name != [] && '/' !in name
    requires q in t.Paths() && IsUnder(q, MediaPath(name))
    ensures name in Children(t, MediaDir)
  {
    var p := MediaPath(name);
    assert q[..|p|] == p;
    assert IsUnder(q, MediaDir);
    var rest := q[|MediaDir| + 1..];
    assert rest[..|name|] == name && rest[|name|] == '/';
    FirstComponentStops(rest, name);
    assert FirstComponent(q[|MediaDir| + 1..]) in Children(t, MediaDir);
  }

  /** The archive `repackage` writes for a tree of files: one deflated member per
      file, named by its relative path and holding its contents, and nothing
      else. */
  predicate IsPackOf(w: Archive, files: map<Path, Bytes>): (b: bool)
    ensures b ==> (set i | 0 <= i < |w| :: w[i].name) == files.Keys
  {
    && (forall i, j :: 0 <= i < j < |w| ==> w[i].name != w[j].name)
    && (forall i :: 0 <= i < |w| ==> w[i].name in files && w[i].data == files[w[i].name] && w[i].compression == Deflated)
    && (forall p :: p in files ==> exists i :: 0 <= i < |w| && w[i].name == p)
  }

  /** Extracting the repackaged archive gives back exactly the files it was
      made from; directories that held no file are not carried over. */
  lemma RepackRoundTrip(w: Archive, files: map<Path, Bytes>)
    requires IsPackOf(w, files)
    requires forall p :: p in files ==> !IsDirName(p)
    ensures Unpack(w) == Tree(files, {})
  {
    UnpackFileNames(w);
    UnpackDirs(w);
    var t := Unpack(w);
    assert t.files.Keys == files.Keys;
    forall p | p in files
      ensures t.files[p] == files[p]
    {
      UnpackLastWins(w, p);
    }
    assert t.dirs == {};
  }
}
