/**
 * An abstract filesystem below one directory `dir`: a map from the path of
 * each existing entry, relative to `dir`, to what is there. The empty path
 * is `dir` itself.
 */
module Filesystem {
  import opened Results
  import opened JavaString

  /** Path segments below `dir`. */
  type Path = seq<string>

  datatype Node =
    | Directory
    | RegularFile(size: int, mode: Option<string>)

  type Tree = map<Path, Node>

  /** One segment of a name: empty segments and `.` stay where they are. */
  function Segment(s: string): (p: Path)
    ensures |p| <= 1
    ensures p == [] <==> s == "" || s == "."
  {
    if s == "" || s == "." then [] else [s]
  }

  /**
   * Where `new File(dir, name)` points, as a path below `dir`: the name split
   * at `/`, with empty and `.` segments dropped.
   */
  function Resolve(name: string): Path
    decreases |name|
  {
    var k := LastIndexOf(name, '/');
    if k == -1 then Segment(name)
    else Resolve(name[..k]) + Segment(name[k + 1..])
  }

  /** Every segment is a real name: not empty, not `.`, and free of `/`. */
  lemma {:induction false} ResolveShape(name: string)
    ensures forall i :: 0 <= i < |Resolve(name)| ==> Resolve(name)[i] != "" && Resolve(name)[i] != "." && '/' !in Resolve(name)[i]
    decreases |name|
  {
    var k := LastIndexOf(name, '/');
    if k != -1 {
      ResolveShape(name[..k]);
      assert '/' !in name[k + 1..];
    }
  }

  /** A `/` splits a name into the segments before it and the segments after it. */
  lemma {:induction false} ResolveConcat(a: string, b: string)
    ensures Resolve(a + "/" + b) == Resolve(a) + Resolve(b)
    decreases |b|
  {
    if '/' in b {
      var k := LastIndexOf(b, '/');
      var x, y := b[..k], b[k + 1..];
      SplitAtSlash(a, b, k);
      calc {
        Resolve(a + "/" + b);
        Resolve((a + "/" + x) + "/" + y);
        { ResolveLastSlash(a + "/" + x, y); }
        Resolve(a + "/" + x) + Segment(y);
        { ResolveConcat(a, x); }
        Resolve(a) + Resolve(x) + Segment(y);
        Resolve(a) + (Resolve(x) + Segment(y));
        { ResolveLastSlash(x, y); }
        Resolve(a) + Resolve(x + "/" + y);
        Resolve(a) + Resolve(b);
      }
    } else {
      ResolveLastSlash(a, b);
      ResolveSegment(b);
    }
  }

  /** Cutting `b` at a `/` regroups `a + "/" + b` around that `/`. */
  lemma SplitAtSlash(a: string, b: string, k: nat)
    requires k < |b| && b[k] == '/'
    ensures b == b[..k] + "/" + b[k + 1..]
    ensures a + "/" + b == (a + "/" + b[..k]) + "/" + b[k + 1..]
  {
    assert b == b[..k] + "/" + b[k + 1..];
  }

  /** The text after the last `/` is the last segment, if any. */
  lemma ResolveLastSlash(x: string, y: string)
    requires '/' !in y
    ensures Resolve(x + "/" + y) == Resolve(x) + Segment(y)
  {
    var n := x + "/" + y;
    LastIndexOfConcat(x + "/", y, '/');
    LastIndexOfConcat(x, "/", '/');
    assert n[..|x|] == x;
    assert n[|x| + 1..] == y;
    ResolveAt(n, |x|);
  }

  lemma ResolveAt(name: string, k: int)
    requires 0 <= k && k == LastIndexOf(name, '/')
    ensures Resolve(name) == Resolve(name[..k]) + Segment(name[k + 1..])
  {
  }

  /** A name without `/` is its one segment, if any. */
  lemma ResolveSegment(name: string)
    requires '/' !in name
    ensures Resolve(name) == Segment(name)
  {
  }

  /** A name without `/` is one segment. */
  lemma ResolveSimple(name: string)
    requires '/' !in name && name != "" && name != "."
    ensures Resolve(name) == [name]
  {
  }

  /** Every path below the root has an existing directory as parent; the root, if there, is a directory. */
  predicate WellFormed(t: Tree) {
    ([] in t ==> t[[]].Directory?) &&
    forall p :: p in t && p != [] ==> p[..|p| - 1] in t && t[p[..|p| - 1]].Directory?
  }

  /** Some proper ancestor of `p` (the root included) is a regular file. */
  predicate HasFileAncestor(t: Tree, p: Path) {
    exists i :: 0 <= i < |p| && p[..i] in t && t[p[..i]].RegularFile?
  }

  /** `p` and all its ancestors. */
  function Chain(p: Path): set<Path> {
    set i | 0 <= i <= |p| :: p[..i]
  }

  /**
   * File.mkdirs(): fails when `p` already exists or cannot be reached
   * because an ancestor is a regular file; otherwise creates `p` and every
   * missing ancestor as directories.
   */
  function AfterMkdirs(t: Tree, p: Path): (r: Option<Tree>)
    ensures r.None? <==> p in t || HasFileAncestor(t, p)
    ensures r.Some? ==> p in r.value && r.value[p] == Directory
    ensures r.Some? ==> forall q :: q in t ==> q in r.value && r.value[q] == t[q]
    ensures r.Some? ==> forall q :: q in r.value && q !in t ==> q in Chain(p) && r.value[q] == Directory
  {
    if p in t || HasFileAncestor(t, p) then None
    else
      assert p == p[..|p|];
      Some(t + map q | q in Chain(p) - t.Keys :: Directory)
  }

  /** mkdirs keeps the tree well formed. */
  lemma MkdirsWellFormed(t: Tree, p: Path)
    requires WellFormed(t)
    requires AfterMkdirs(t, p).Some?
    ensures WellFormed(AfterMkdirs(t, p).value)
  {
    var u := AfterMkdirs(t, p).value;
    forall q | q in u && q != []
      ensures q[..|q| - 1] in u && u[q[..|q| - 1]].Directory?
    {
      if q !in t {
        var i :| 0 <= i <= |p| && q == p[..i];
        var parent := p[..i - 1];
        assert q[..|q| - 1] == parent;
        assert parent in Chain(p);
        if parent in t {
          assert !t[p[..i - 1]].RegularFile?;
        }
      }
    }
  }

  /**
   * Opening `p` with FileOutputStream and writing `size` bytes: fails when
   * `p` is `dir` itself, is a directory, or its parent is missing or not a
   * directory; otherwise `p` becomes a regular file of that size, keeping
   * the mode of a file it replaces.
   */
  function AfterWrite(t: Tree, p: Path, size: int): (r: Option<Tree>)
    ensures r.None? <==>
      p == [] || (p in t && t[p].Directory?) || p[..|p| - 1] !in t || !t[p[..|p| - 1]].Directory?
    ensures r.Some? ==> r.value.Keys == t.Keys + {p}
    ensures r.Some? ==> r.value[p].RegularFile? && r.value[p].size == size
    ensures r.Some? ==> forall q :: q in t && q != p ==> r.value[q] == t[q]
  {
    if p == [] || (p in t && t[p].Directory?) || p[..|p| - 1] !in t || !t[p[..|p| - 1]].Directory? then None
    else Some(t[p := RegularFile(size, if p in t then t[p].mode else None)])
  }

  lemma WriteWellFormed(t: Tree, p: Path, size: int)
    requires WellFormed(t)
    requires AfterWrite(t, p, size).Some?
    ensures WellFormed(AfterWrite(t, p, size).value)
  {
    var u := AfterWrite(t, p, size).value;
    forall q | q in u && q != []
      ensures q[..|q| - 1] in u && u[q[..|q| - 1]].Directory?
    {
      if q != p {
        assert q in t;
        assert q[..|q| - 1] != p by {
          assert t[q[..|q| - 1]].Directory?;
        }
      }
    }
  }

  /** chmod on a regular file records the mode; on anything else it changes nothing. */
  function AfterChmod(t: Tree, p: Path, mode: string): (r: Tree)
    ensures r.Keys == t.Keys
    ensures forall q :: q in t && q != p ==> r[q] == t[q]
    ensures p in t && t[p].RegularFile? ==> r[p] == RegularFile(t[p].size, Some(mode))
    ensures !(p in t && t[p].RegularFile?) ==> r == t
  {
    if p in t && t[p].RegularFile? then t[p := RegularFile(t[p].size, Some(mode))] else t
  }

  lemma ChmodWellFormed(t: Tree, p: Path, mode: string)
    requires WellFormed(t)
    ensures WellFormed(AfterChmod(t, p, mode))
  {
    var u := AfterChmod(t, p, mode);
    forall q | q in u && q != []
      ensures q[..|q| - 1] in u && u[q[..|q| - 1]].Directory?
    {
      assert q in t;
    }
  }

  /** The directory `dir` on disk, changed in place by the operations below. */
  class Disk {
    /** The absolute path of `dir`. */
    const location: string
    var tree: Tree

    constructor (location: string, tree: Tree)
      ensures this.location == location && this.tree == tree
    {
      this.location := location;
      this.tree := tree;
    }

    /** File.mkdirs() on `dir/p`, reporting whether it created the directory. */
    method Mkdirs(p: Path) returns (created: bool)
      modifies this
      ensures created <==> AfterMkdirs(old(tree), p).Some?
      ensures tree == if created then AfterMkdirs(old(tree), p).value else old(tree)
    {
      var r := AfterMkdirs(tree, p);
      created := r.Some?;
      if created {
        tree := r.value;
      }
    }

    /** Open `dir/p` for output and write `size` bytes into it, reporting whether it could be opened. */
    method Write(p: Path, size: int) returns (ok: bool)
      modifies this
      ensures ok <==> AfterWrite(old(tree), p, size).Some?
      ensures tree == if ok then AfterWrite(old(tree), p, size).value else old(tree)
    {
      var r := AfterWrite(tree, p, size);
      ok := r.Some?;
      if ok {
        tree := r.value;
      }
    }

    /** chmod `mode` `dir/p`. */
    method Chmod(p: Path, mode: string)
      modifies this
      ensures tree == AfterChmod(old(tree), p, mode)
    {
      tree := AfterChmod(tree, p, mode);
    }

    /** FileUtils.deleteDirectory(dir): `dir` and everything in it are gone. */
    method DeleteDirectory()
      modifies this
      ensures tree == map[]
    {
      tree := map[];
    }
  }
}
