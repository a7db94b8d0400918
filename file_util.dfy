/**
 * FileUtil: path-string helpers, line filtering, and walks over a directory
 * tree. The tree is an abstract value standing in for what File.listFiles()
 * reports; its child order is the listing order.
 */
module FileUtil {
  import opened Results
  import opened JavaString

  // ---------------------------------------------------------------------
  // Path strings

  /** chopSuffix: drop the text from the last `.` on, unless there is none or it ends the path. */
  function ChopSuffix(path: Option<string>): (r: Option<string>)
    ensures path.None? <==> r.None?
    ensures path.Some? && ('.' !in path.value || path.value[|path.value| - 1] == '.') ==> r == path
    ensures path.Some? && '.' in path.value && path.value[|path.value| - 1] != '.' ==>
      var p, q := path.value, r.value;
      |q| < |p| && q == p[..|q|] && p[|q|] == '.' && '.' !in p[|q| + 1..]
  {
    if path.None? then None
    else
      var p := path.value;
      var lastDot := LastIndexOf(p, '.');
      if lastDot == -1 || lastDot == |p| - 1 then path
      else Some(p[..lastDot])
  }

  /** extension(String): the text from the last `.` on, or "" when there is no `.`. */
  function Extension(name: string): (r: string)
    ensures '.' !in name ==> r == ""
    ensures '.' in name ==>
      0 < |r| <= |name| && r == name[|name| - |r|..] && r[0] == '.' && '.' !in r[1..]
  {
    var lastDot := LastIndexOf(name, '.');
    if lastDot == -1 then "" else name[lastDot..]
  }

  /** The stem and the extension put back together give the path. */
  lemma ChopSuffixThenExtension(p: string)
    requires '.' in p && p[|p| - 1] != '.'
    ensures ChopSuffix(Some(p)).value + Extension(p) == p
  {
    var q := ChopSuffix(Some(p)).value;
    assert p == q + p[|q|..];
  }

  /** A path that ends in `.` keeps its dot in both halves: they no longer add up. */
  lemma TrailingDotCountedTwice(p: string)
    requires p != [] && p[|p| - 1] == '.'
    ensures ChopSuffix(Some(p)).value + Extension(p) == p + "."
  {
  }

  /**
   * removeExtension(f, ext) on f's name: drop as many trailing characters as
   * `ext` has, without checking that they are `ext`. A longer `ext` makes
   * substring throw.
   */
  function RemoveExtension(name: string, ext: string): (r: Result<string, JavaException>)
    ensures r.Success? <==> |ext| <= |name|
    ensures r.Success? ==> |r.value| + |ext| == |name| && r.value == name[..|r.value|]
    ensures r.Failure? ==> r.error == IndexOutOfBounds
  {
    var end := |name| - |ext|;
    if end < 0 then Failure(IndexOutOfBounds) else Success(name[..end])
  }

  /** Removing the extension a name ends with gives its stem back. */
  lemma RemoveExtensionOf(stem: string, ext: string)
    ensures RemoveExtension(stem + ext, ext) == Success(stem)
  {
    assert (stem + ext)[..|stem|] == stem;
  }

  /** ext's characters are never looked at: any ext of the same length removes the same. */
  lemma RemoveExtensionIgnoresText(name: string, ext1: string, ext2: string)
    requires |ext1| == |ext2|
    ensures RemoveExtension(name, ext1) == RemoveExtension(name, ext2)
  {
  }

  /** ZillaRuntime.empty(String): null or of length 0. */
  predicate Empty(s: Option<string>) {
    s.None? || s.value == []
  }

  /**
   * dirname: the text before the last `/` of the path as given (the `chop` of
   * a trailing `/` happens after the index is taken, so it changes nothing),
   * "." when there is no `/`.
   */
  function Dirname(path: Option<string>): (r: Result<string, JavaException>)
    ensures r.Failure? <==> Empty(path)
    ensures r.Failure? ==> r.error == NullPointer(Some("dirname: path was empty"))
    ensures r.Success? && '/' !in path.value ==> r.value == "."
    ensures r.Success? && '/' in path.value ==>
      var p, d := path.value, r.value;
      |d| < |p| && d == p[..|d|] && p[|d|] == '/' && '/' !in p[|d| + 1..]
  {
    if Empty(path) then Failure(NullPointer(Some("dirname: path was empty")))
    else
      var pos := LastIndexOf(path.value, '/');
      if pos == -1 then Success(".")
      else
        var p := if EndsWith(path.value, "/") then path.value[..|path.value| - 1] else path.value;
        Success(p[..pos])
  }

  /**
   * basename: the non-empty text after the last `/`; the whole path when
   * there is no `/`; an error when the path ends in `/`.
   */
  function Basename(path: Option<string>): (r: Result<string, JavaException>)
    ensures Empty(path) ==> r == Failure(NullPointer(Some("basename: path was empty")))
    ensures !Empty(path) && '/' !in path.value ==> r == Success(path.value)
    ensures !Empty(path) && path.value[|path.value| - 1] == '/' ==>
      r == Failure(IllegalArgument("basename: invalid path: " + path.value))
    ensures r.Success? ==>
      var p, b := path.value, r.value;
      0 < |b| <= |p| && b == p[|p| - |b|..] && '/' !in b && (|b| < |p| ==> p[|p| - |b| - 1] == '/')
  {
    if Empty(path) then Failure(NullPointer(Some("basename: path was empty")))
    else
      var p := path.value;
      var pos := LastIndexOf(p, '/');
      if pos == -1 then Success(p)
      else if pos == |p| - 1 then Failure(IllegalArgument("basename: invalid path: " + p))
      else Success(p[pos + 1..])
  }

  /** A path with a `/` that does not end in `/` is its dirname, `/`, and its basename. */
  lemma DirnameSlashBasename(p: string)
    requires '/' in p && p[|p| - 1] != '/'
    ensures Dirname(Some(p)).Success? && Basename(Some(p)).Success?
    ensures Dirname(Some(p)).value + "/" + Basename(Some(p)).value == p
  {
    var d := Dirname(Some(p)).value;
    var b := Basename(Some(p)).value;
    var pos := LastIndexOf(p, '/');
    assert |d| == pos;
    assert b == p[pos + 1..];
    assert p == p[..pos] + [p[pos]] + p[pos + 1..];
  }

  lemma DirnameExamples()
    ensures Dirname(Some("a/b/")) == Success("a/b")
    ensures Dirname(Some("/x")) == Success("")
    ensures Dirname(Some("x")) == Success(".")
  {
    assert LastIndexOf("a/b/", '/') == 3 by {
      assert "a/b/"[3] == '/';
    }
    assert EndsWith("a/b/", "/");
    assert "a/b/"[..3] == "a/b";
    assert "a/b/"[..3][..3] == "a/b";
    assert LastIndexOf("/x", '/') == 0;
  }

  // ---------------------------------------------------------------------
  // Lines

  /** toStringList(Reader): one trimmed string per line, in order. */
  method ToStringList(lines: seq<string>) returns (strings: seq<string>)
    ensures |strings| == |lines|
    ensures forall i :: 0 <= i < |lines| ==> strings[i] == Trim(lines[i])
  {
    strings := [];
    var i := 0;
    while i < |lines|
      invariant 0 <= i <= |lines|
      invariant |strings| == i
      invariant forall k :: 0 <= k < i ==> strings[k] == Trim(lines[k])
    {
      strings := strings + [Trim(lines[i])];
      i := i + 1;
    }
  }

  /** The line is dropped by toStringExcludingLines. */
  predicate Excluded(line: string, prefix: string) {
    StartsWith(Trim(line), prefix)
  }

  /** The lines toStringExcludingLines keeps, in input order. */
  function KeptLines(lines: seq<string>, prefix: string): seq<string> {
    if lines == [] then []
    else
      var init, last := lines[..|lines| - 1], lines[|lines| - 1];
      KeptLines(init, prefix) + (if Excluded(last, prefix) then [] else [last])
  }

  /** A line is kept exactly when it is in the input and not excluded. */
  lemma {:induction false} KeptLinesMembers(lines: seq<string>, prefix: string)
    ensures |KeptLines(lines, prefix)| <= |lines|
    ensures forall l :: l in KeptLines(lines, prefix) <==> l in lines && !Excluded(l, prefix)
    decreases |lines|
  {
    if lines != [] {
      var init, last := lines[..|lines| - 1], lines[|lines| - 1];
      assert lines == init + [last];
      KeptLinesMembers(init, prefix);
    }
  }

  /** Lines joined with a "\n" after each. */
  function Joined(lines: seq<string>): string {
    if lines == [] then ""
    else Joined(lines[..|lines| - 1]) + lines[|lines| - 1] + "\n"
  }

  /** toStringExcludingLines: every kept line followed by "\n". */
  method ToStringExcludingLines(lines: seq<string>, prefix: string) returns (s: string)
    ensures s == Joined(KeptLines(lines, prefix))
  {
    s := "";
    var i := 0;
    while i < |lines|
      invariant 0 <= i <= |lines|
      invariant s == Joined(KeptLines(lines[..i], prefix))
    {
      var line := lines[i];
      assert lines[..i + 1] == lines[..i] + [line];
      KeptLinesSnoc(lines[..i], line, prefix);
      if !Excluded(line, prefix) {
        JoinedSnoc(KeptLines(lines[..i], prefix), line);
        s := s + line + "\n";
      } else {
        assert KeptLines(lines[..i + 1], prefix) == KeptLines(lines[..i], prefix);
      }
      i := i + 1;
    }
    assert lines[..|lines|] == lines;
  }

  lemma KeptLinesSnoc(lines: seq<string>, line: string, prefix: string)
    ensures KeptLines(lines + [line], prefix) ==
      KeptLines(lines, prefix) + (if Excluded(line, prefix) then [] else [line])
  {
    assert (lines + [line])[..|lines|] == lines;
  }

  lemma JoinedSnoc(lines: seq<string>, line: string)
    ensures Joined(lines + [line]) == Joined(lines) + line + "\n"
  {
    assert (lines + [line])[..|lines|] == lines;
  }

  /** Filtering keeps input order: it works piece by piece. */
  lemma {:induction false} KeptLinesAppend(a: seq<string>, b: seq<string>, prefix: string)
    ensures KeptLines(a + b, prefix) == KeptLines(a, prefix) + KeptLines(b, prefix)
    decreases |b|
  {
    if b == [] {
      assert a + b == a;
    } else {
      var init, last := b[..|b| - 1], b[|b| - 1];
      assert (a + b)[..|a + b| - 1] == a + init;
      assert (a + b)[|a + b| - 1] == last;
      KeptLinesAppend(a, init, prefix);
    }
  }

  lemma {:induction false} JoinedAppend(a: seq<string>, b: seq<string>)
    ensures Joined(a + b) == Joined(a) + Joined(b)
    decreases |b|
  {
    if b == [] {
      assert a + b == a;
    } else {
      var init, last := b[..|b| - 1], b[|b| - 1];
      assert (a + b)[..|a + b| - 1] == a + init;
      assert (a + b)[|a + b| - 1] == last;
      JoinedAppend(a, init);
    }
  }

  /** With nothing excluded, the output is the whole input, one line per "\n". */
  lemma {:induction false} NothingExcluded(lines: seq<string>, prefix: string)
    requires forall l :: l in lines ==> !Excluded(l, prefix)
    ensures KeptLines(lines, prefix) == lines
    decreases |lines|
  {
    if lines != [] {
      var init, last := lines[..|lines| - 1], lines[|lines| - 1];
      assert lines == init + [last];
      assert forall l :: l in init ==> l in lines;
      NothingExcluded(init, prefix);
      assert !Excluded(last, prefix);
      KeptLinesSnoc(init, last, prefix);
    }
  }

  /** An empty prefix starts every trimmed line, so everything is excluded. */
  lemma EmptyPrefixExcludesAll(lines: seq<string>)
    ensures KeptLines(lines, "") == []
  {
    KeptLinesMembers(lines, "");
  }

  // ---------------------------------------------------------------------
  // Directory trees

  /** A file or directory as File.listFiles() reports it. */
  datatype FileTree =
    | File(name: string, lastModified: int)
    | Dir(name: string, lastModified: int, children: seq<FileTree>)

  /** The nodes of `nodes` that `accept` lets through, in order (listFiles(filter)). */
  function Filter(nodes: seq<FileTree>, accept: FileTree -> bool): (r: seq<FileTree>)
    ensures |r| <= |nodes|
  {
    if nodes == [] then []
    else Filter(nodes[..|nodes| - 1], accept) + (if accept(nodes[|nodes| - 1]) then [nodes[|nodes| - 1]] else [])
  }

  /** listFiles(filter) keeps exactly the accepted nodes. */
  lemma {:induction false} FilterMembers(nodes: seq<FileTree>, accept: FileTree -> bool)
    ensures forall n :: n in Filter(nodes, accept) <==> n in nodes && accept(n)
    decreases |nodes|
  {
    if nodes != [] {
      var init, last := nodes[..|nodes| - 1], nodes[|nodes| - 1];
      assert nodes == init + [last];
      FilterMembers(init, accept);
    }
  }

  /**
   * What _listRecurse appends for `t`: its accepted children, then the
   * listing of each child directory in turn. A plain file lists nothing
   * (listFiles() returns null for it).
   */
  function Listing(t: FileTree, accept: FileTree -> bool): seq<FileTree>
    decreases t
  {
    match t
    case File(_, _) => []
    case Dir(_, _, cs) => Filter(cs, accept) + ListingOf(cs, accept)
  }

  function ListingOf(cs: seq<FileTree>, accept: FileTree -> bool): seq<FileTree>
    decreases cs
  {
    if cs == [] then [] else ListingOf(cs[..|cs| - 1], accept) + Listing(cs[|cs| - 1], accept)
  }

  /** Every node strictly inside `t`, at any depth. */
  function Below(t: FileTree): set<FileTree>
    decreases t
  {
    match t
    case File(_, _) => {}
    case Dir(_, _, cs) => BelowAll(cs)
  }

  function BelowAll(cs: seq<FileTree>): set<FileTree>
    decreases cs
  {
    if cs == [] then {}
    else BelowAll(cs[..|cs| - 1]) + {cs[|cs| - 1]} + Below(cs[|cs| - 1])
  }

  /** listFilesRecursively finds exactly the accepted nodes inside the directory. */
  lemma {:induction false} ListingFindsAccepted(t: FileTree, accept: FileTree -> bool)
    ensures forall n :: n in Listing(t, accept) <==> n in Below(t) && accept(n)
    decreases t, 1
  {
    match t
    case File(_, _) =>
    case Dir(_, _, cs) =>
      ListingOfFindsAccepted(cs, accept);
  }

  lemma {:induction false} ListingOfFindsAccepted(cs: seq<FileTree>, accept: FileTree -> bool)
    ensures forall n :: n in Filter(cs, accept) + ListingOf(cs, accept) <==> n in BelowAll(cs) && accept(n)
    decreases cs, 0
  {
    if cs != [] {
      var init, last := cs[..|cs| - 1], cs[|cs| - 1];
      assert cs == init + [last];
      ListingOfFindsAccepted(init, accept);
      ListingFindsAccepted(last, accept);
      FilterMembers(cs, accept);
      FilterMembers(init, accept);
    }
  }

  /** _listRecurse: append the listing of `dir` to `results`. */
  method ListRecurse(results: seq<FileTree>, dir: FileTree, accept: FileTree -> bool) returns (out: seq<FileTree>)
    ensures out == results + Listing(dir, accept)
    decreases dir
  {
    if dir.File? {
      return results;
    }
    var cs := dir.children;
    out := results + Filter(cs, accept);
    for i := 0 to |cs|
      invariant out == results + Filter(cs, accept) + ListingOf(cs[..i], accept)
    {
      ghost var before := out;
      if cs[i].Dir? {
        out := ListRecurse(out, cs[i], accept);
      }
      assert out == results + Filter(cs, accept) + ListingOf(cs[..i + 1], accept) by {
        ListingOfSnoc(cs, i, accept);
        assert out == before + Listing(cs[i], accept);
        var done := results + Filter(cs, accept);
        assert done + ListingOf(cs[..i], accept) + Listing(cs[i], accept)
            == done + (ListingOf(cs[..i], accept) + Listing(cs[i], accept));
      }
    }
    assert cs[..|cs|] == cs;
  }

  lemma ListingOfSnoc(cs: seq<FileTree>, i: nat, accept: FileTree -> bool)
    requires i < |cs|
    ensures ListingOf(cs[..i + 1], accept) == ListingOf(cs[..i], accept) + Listing(cs[i], accept)
  {
    assert cs[..i + 1][..i] == cs[..i];
  }

  /** listFilesRecursively(dir, filter). */
  method ListFilesRecursively(dir: FileTree, accept: FileTree -> bool) returns (files: seq<FileTree>)
    ensures files == Listing(dir, accept)
    ensures forall n :: n in files <==> n in Below(dir) && accept(n)
  {
    files := ListRecurse([], dir, accept);
    ListingFindsAccepted(dir, accept);
  }

  /** The filter "a plain file called `name`". */
  function IsFileNamed(name: string): FileTree -> bool {
    (n: FileTree) => n.File? && n.name == name
  }

  /**
   * countFilesWithName: the number of plain files called `name` anywhere
   * below `dir`, the same number listFilesRecursively finds with that filter.
   */
  method CountFilesWithName(dir: FileTree, name: string) returns (count: nat)
    ensures count == |Listing(dir, IsFileNamed(name))|
    decreases dir
  {
    count := 0;
    if dir.Dir? {
      var files := dir.children;
      for i := 0 to |files|
        invariant count == |Filter(files[..i], IsFileNamed(name))| + |ListingOf(files[..i], IsFileNamed(name))|
      {
        var f := files[i];
        assert files[..i + 1][..i] == files[..i];
        if f.Dir? {
          var c := CountFilesWithName(f, name);
          count := count + c;
        } else if f.name == name {
          count := count + 1;
        }
      }
      assert files[..|files|] == files;
    }
  }

  /**
   * The files mostRecentFile compares, in the order it meets them: each
   * child file, and in place of each child directory the files inside it.
   */
  function FilesIn(t: FileTree): (r: seq<FileTree>)
    ensures forall f :: f in r ==> f.File?
    decreases t
  {
    match t
    case File(_, _) => []
    case Dir(_, _, cs) => FilesAmong(cs)
  }

  function FilesAmong(cs: seq<FileTree>): (r: seq<FileTree>)
    ensures forall f :: f in r ==> f.File?
    decreases cs
  {
    if cs == [] then []
    else
      var last := cs[|cs| - 1];
      FilesAmong(cs[..|cs| - 1]) + (if last.File? then [last] else FilesIn(last))
  }

  /** mostRecentFile looks at exactly the plain files inside the directory, at any depth. */
  lemma {:induction false} FilesInMembers(t: FileTree)
    ensures forall n :: n in FilesIn(t) <==> n in Below(t) && n.File?
    decreases t, 1
  {
    match t
    case File(_, _) =>
    case Dir(_, _, cs) =>
      FilesAmongMembers(cs);
  }

  lemma {:induction false} FilesAmongMembers(cs: seq<FileTree>)
    ensures forall n :: n in FilesAmong(cs) <==> n in BelowAll(cs) && n.File?
    decreases cs, 0
  {
    if cs != [] {
      var init, last := cs[..|cs| - 1], cs[|cs| - 1];
      FilesAmongMembers(init);
      FilesInMembers(last);
    }
  }

  /** One step of mostRecentFile's comparison: a later file wins only if strictly newer. */
  function Pick(newest: Option<FileTree>, file: FileTree): Option<FileTree> {
    if newest.None? || file.lastModified > newest.value.lastModified then Some(file) else newest
  }

  /** The running result of mostRecentFile's loop over `files`. */
  function Newest(files: seq<FileTree>): Option<FileTree> {
    if files == [] then None else Pick(Newest(files[..|files| - 1]), files[|files| - 1])
  }

  /**
   * The newest of a sequence of files is none exactly when there are no
   * files; otherwise it is one of them, none is newer, and every file before
   * it is strictly older (the first one wins a tie).
   */
  lemma {:induction false} NewestIsFirstLatest(files: seq<FileTree>)
    ensures Newest(files).None? <==> files == []
    ensures Newest(files).Some? ==>
      var v := Newest(files).value;
      (forall j :: 0 <= j < |files| ==> files[j].lastModified <= v.lastModified) &&
      exists k :: 0 <= k < |files| && files[k] == v && forall j :: 0 <= j < k ==> files[j].lastModified < v.lastModified
    decreases |files|
  {
    if files != [] {
      var init, last := files[..|files| - 1], files[|files| - 1];
      NewestIsFirstLatest(init);
      var v := Newest(files).value;
      if Newest(init).None? || last.lastModified > Newest(init).value.lastModified {
        assert files[|files| - 1] == v;
        assert forall j :: 0 <= j < |init| ==> files[j] == init[j];
      } else {
        var k :| 0 <= k < |init| && init[k] == v && forall j :: 0 <= j < k ==> init[j].lastModified < v.lastModified;
        assert files[k] == v;
        assert forall j :: 0 <= j < |init| ==> files[j] == init[j];
      }
    }
  }

  /** Combining two partial results as mostRecentFile does with a subdirectory's. */
  function Combine(a: Option<FileTree>, b: Option<FileTree>): Option<FileTree> {
    if b.None? then a else Pick(a, b.value)
  }

  lemma {:induction false} NewestAppend(xs: seq<FileTree>, ys: seq<FileTree>)
    ensures Newest(xs + ys) == Combine(Newest(xs), Newest(ys))
    decreases |ys|
  {
    if ys == [] {
      assert xs + ys == xs;
    } else {
      var init, last := ys[..|ys| - 1], ys[|ys| - 1];
      assert (xs + ys)[..|xs + ys| - 1] == xs + init;
      assert (xs + ys)[|xs + ys| - 1] == last;
      NewestAppend(xs, init);
    }
  }

  /**
   * mostRecentFile: the newest plain file anywhere below `dir`, the first
   * met on a tie, or none when there is no file.
   */
  method MostRecentFile(dir: FileTree) returns (newest: Option<FileTree>)
    ensures newest == Newest(FilesIn(dir))
    decreases dir
  {
    newest := None;
    if dir.File? {
      return;
    }
    var files := dir.children;
    for i := 0 to |files|
      invariant newest == Newest(FilesAmong(files[..i]))
    {
      assert files[..i + 1][..i] == files[..i];
      var file := Some(files[i]);
      if files[i].Dir? {
        file := MostRecentFile(files[i]);
        NewestAppend(FilesAmong(files[..i]), FilesIn(files[i]));
        if file.None? {
          continue;
        }
        NewestIsFirstLatest(FilesIn(files[i]));
      } else {
        NewestAppend(FilesAmong(files[..i]), [files[i]]);
      }
      if file.value.File? {
        if newest.None? {
          newest := file;
        } else if file.value.lastModified > newest.value.lastModified {
          newest := file;
        }
      }
    }
    assert files[..|files|] == files;
  }

  /**
   * What mostRecentFile finds: none exactly when there is no plain file
   * inside the directory, otherwise a plain file inside it that no other
   * plain file inside it is newer than.
   */
  lemma MostRecentIsNewestBelow(dir: FileTree)
    ensures Newest(FilesIn(dir)).None? <==> forall n :: n in Below(dir) ==> !n.File?
    ensures Newest(FilesIn(dir)).Some? ==>
      var v := Newest(FilesIn(dir)).value;
      v in Below(dir) && v.File? &&
      forall n :: n in Below(dir) && n.File? ==> n.lastModified <= v.lastModified
  {
    var files := FilesIn(dir);
    FilesInMembers(dir);
    NewestIsFirstLatest(files);
    if files != [] {
      assert files[0] in files;
    }
    forall n | n in Below(dir) && n.File?
      ensures files != [] && n.lastModified <= Newest(files).value.lastModified
    {
      assert n in files;
      var j :| 0 <= j < |files| && files[j] == n;
    }
  }
}
