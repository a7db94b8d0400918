/**
 * Tarball: extracting a compressed tar archive into a directory (unroll)
 * and planning the `tar czf` command that creates one (roll).
 *
 * Decompression and tar parsing are outside the model: the archive reaches
 * unroll as the sequence of entries the tar reader would deliver.
 */
module Tarball {
  import opened Results
  import opened JavaString
  import opened Filesystem

  // ---------------------------------------------------------------------
  // Codec

  datatype Codec = Gzip | Bzip2

  /** The decompressor chosen for the archive, and whether the fallback warning is logged. */
  datatype CodecChoice = CodecChoice(codec: Codec, warned: bool)

  /**
   * Bzip2 exactly for a `.bz2` path; Gzip otherwise, with a warning unless
   * the path ends in `.gz` or `.tgz`.
   */
  function SelectCodec(path: string): (c: CodecChoice)
    ensures c.codec == Bzip2 <==> EndsWith(path, ".bz2")
    ensures c.warned <==> !EndsWith(path, ".gz") && !EndsWith(path, ".tgz") && !EndsWith(path, ".bz2")
  {
    if EndsWith(path, ".gz") || EndsWith(path, ".tgz") then
      assert !EndsWith(path, ".bz2") by {
        assert path[|path| - 1] == 'z';
      }
      CodecChoice(Gzip, false)
    else if EndsWith(path, ".bz2") then CodecChoice(Bzip2, false)
    else CodecChoice(Gzip, true)
  }

  lemma CodecExamples()
    ensures SelectCodec("/tmp/data.xyz") == CodecChoice(Gzip, true)
    ensures SelectCodec("/tmp/a.tar.bz2") == CodecChoice(Bzip2, false)
    ensures SelectCodec("/tmp/a.tgz") == CodecChoice(Gzip, false)
  {
    assert !EndsWith("/tmp/data.xyz", ".gz") by {
      assert "/tmp/data.xyz"[10] == 'x';
    }
    assert !EndsWith("/tmp/data.xyz", ".tgz") by {
      assert "/tmp/data.xyz"[10] == 'x';
    }
    assert !EndsWith("/tmp/a.tar.bz2", ".gz") by {
      assert "/tmp/a.tar.bz2"[13] == '2';
    }
    assert !EndsWith("/tmp/a.tar.bz2", ".tgz") by {
      assert "/tmp/a.tar.bz2"[13] == '2';
    }
    assert "/tmp/a.tar.bz2"[10..] == ".bz2";
    assert "/tmp/a.tgz"[6..] == ".tgz";
  }

  // ---------------------------------------------------------------------
  // Octal modes

  /** A Java int. */
  newtype Int32 = x: int | -0x8000_0000 <= x < 0x8000_0000

  predicate IsOctalDigit(c: char) {
    '0' <= c <= '7'
  }

  function OctalDigit(d: nat): (c: char)
    requires d < 8
    ensures IsOctalDigit(c)
  {
    ('0' as int + d) as char
  }

  /** The octal numeral of n, without leading zeros. */
  function Octal(n: nat): (s: string)
    ensures |s| >= 1
    ensures forall i :: 0 <= i < |s| ==> IsOctalDigit(s[i])
    ensures s[0] == '0' ==> s == "0"
  {
    if n < 8 then [OctalDigit(n)]
    else
      var s := Octal(n / 8) + [OctalDigit(n % 8)];
      assert s[0] == Octal(n / 8)[0];
      s
  }

  /** What an octal numeral denotes. */
  function OctalValue(s: string): nat
    requires forall i :: 0 <= i < |s| ==> IsOctalDigit(s[i])
  {
    if s == [] then 0
    else
      assert IsOctalDigit(s[|s| - 1]);
      OctalValue(s[..|s| - 1]) * 8 + (s[|s| - 1] as int - '0' as int)
  }

  lemma {:induction false} OctalRoundTrip(n: nat)
    ensures OctalValue(Octal(n)) == n
  {
    if n >= 8 {
      var s := Octal(n);
      assert s[..|s| - 1] == Octal(n / 8);
      OctalRoundTrip(n / 8);
    }
  }

  /** Integer.toOctalString: the octal numeral of the int read as an unsigned 32-bit value. */
  function ToOctalString(i: Int32): (s: string)
    ensures forall k :: 0 <= k < |s| ==> IsOctalDigit(s[k])
  {
    Octal((i as int) % 0x1_0000_0000)
  }

  /** The mode string denotes the mode for non-negative modes, and the mode plus 2^32 for negative ones. */
  lemma ToOctalStringValue(i: Int32)
    ensures OctalValue(ToOctalString(i)) == if i >= 0 then i as int else i as int + 0x1_0000_0000
  {
    OctalRoundTrip((i as int) % 0x1_0000_0000);
  }

  /** One more octal digit: the numeral of n is that of n / 8 followed by the digit n % 8. */
  lemma OctalStep(n: nat)
    requires n >= 8
    ensures Octal(n) == Octal(n / 8) + [OctalDigit(n % 8)]
  {
  }

  /** 0644, the usual mode of a regular file, is written "644". */
  lemma ToOctalStringRegularFile()
    ensures ToOctalString(420) == "644"
  {
    assert (420 as Int32) as int % 0x1_0000_0000 == 420;
    OctalStep(420);
    OctalStep(52);
    assert OctalDigit(6) == '6' && OctalDigit(4) == '4';
  }

  /** 0755, the usual mode of an executable, is written "755". */
  lemma ToOctalStringExecutable()
    ensures ToOctalString(493) == "755"
  {
    assert (493 as Int32) as int % 0x1_0000_0000 == 493;
    OctalStep(493);
    OctalStep(61);
    assert OctalDigit(7) == '7' && OctalDigit(5) == '5';
  }

  // ---------------------------------------------------------------------
  // Entries

  /**
   * A tar entry as the reader delivers it: its name, declared size and mode,
   * and the number of bytes copying its content actually delivered.
   */
  datatype TarEntry = TarEntry(name: string, size: int, mode: Int32, copied: int)

  /** The entries of an archive; `readError` when the reader throws after the last of them. */
  datatype TarStream = TarStream(entries: seq<TarEntry>, readError: bool)

  datatype UnrollError =
    /** mkdirs returned false (message "Error creating directory: " and the directory). */
    | CannotCreateDirectory(subdir: Path)
    /** The file could not be opened for writing. */
    | CannotOpen(file: Path)
    /** Fewer bytes were copied than declared (message "Expected to copy ..."): the entry's own name and the archive's path. */
    | SizeMismatch(expected: int, entryName: string, archive: string)
    /** Reading the archive failed. */
    | ReadError

  /** Strip one leading "./", then one leading "/". */
  function NormalizeName(name: string): (r: string)
    ensures |r| <= |name| && r == name[|name| - |r|..]
  {
    var n := if StartsWith(name, "./") then name[2..] else name;
    if StartsWith(n, "/") then n[1..] else n
  }

  /** "./a", "/a" and "a" all name the same entry. */
  lemma NormalizeSameTarget(n: string)
    requires !StartsWith(n, "/") && !StartsWith(n, "./")
    ensures NormalizeName("./" + n) == n
    ensures NormalizeName("/" + n) == n
    ensures NormalizeName(n) == n
  {
    assert ("./" + n)[2..] == n;
    assert ("/" + n)[1..] == n;
    assert !StartsWith("/" + n, "./");
  }

  /** Only one of each prefix is stripped: "/./a" and "././a" keep a "./". */
  lemma NormalizeStripsOnce(n: string)
    ensures NormalizeName("/./" + n) == "./" + n
    ensures NormalizeName("././" + n) == "./" + n
  {
    assert ("/./" + n)[0] == '/';
    assert ("/./" + n)[1..] == "./" + n;
    assert ("./" + n)[0] == '.';
    assert ("././" + n)[..2] == "./";
    assert ("././" + n)[2..] == "./" + n;
  }

  datatype Step =
    | Continue(tree: Tree)
    | Halt(tree: Tree, error: UnrollError)

  /**
   * A directory entry: mkdirs `subdir`. It writes no file: it adds only
   * directories, the named one among them, and fails exactly when mkdirs
   * does (the directory exists, or a file is in the way).
   */
  function DirectoryStep(t: Tree, subdir: Path): Step {
    var r := AfterMkdirs(t, subdir);
    if r.None? then Halt(t, CannotCreateDirectory(subdir)) else Continue(r.value)
  }

  lemma DirectoryEntry(t: Tree, subdir: Path)
    ensures var s := DirectoryStep(t, subdir);
      (s.Halt? <==> subdir in t || HasFileAncestor(t, subdir)) &&
      (s.Halt? ==> s == Halt(t, CannotCreateDirectory(subdir))) &&
      (s.Continue? ==> subdir in s.tree && s.tree[subdir] == Directory) &&
      (s.Continue? ==> forall p :: p in t ==> p in s.tree && s.tree[p] == t[p]) &&
      (s.Continue? ==> forall p :: p in s.tree && p !in t ==> s.tree[p] == Directory)
  {
  }

  /**
   * A file entry: open `file`, copy the entry's bytes into it, chmod it.
   * When the whole declared size arrives, the file holds that many bytes
   * with the entry's octal mode and nothing else changes; when fewer bytes
   * arrive the walk fails, naming the entry's own name and the archive.
   */
  function FileStep(t: Tree, file: Path, e: TarEntry, archive: string): Step {
    var w := AfterWrite(t, file, e.copied);
    if w.None? then Halt(t, CannotOpen(file))
    else if e.copied != e.size then Halt(w.value, SizeMismatch(e.size, e.name, archive))
    else Continue(AfterChmod(w.value, file, ToOctalString(e.mode)))
  }

  lemma FileEntry(t: Tree, file: Path, e: TarEntry, archive: string)
    ensures var s := FileStep(t, file, e, archive);
      var w := AfterWrite(t, file, e.copied);
      (w.None? ==> s == Halt(t, CannotOpen(file))) &&
      (w.Some? ==> !(file in t && t[file].Directory?)) &&
      (w.Some? && e.copied != e.size ==> s == Halt(w.value, SizeMismatch(e.size, e.name, archive))) &&
      (w.Some? && e.copied == e.size ==>
        s.Continue? && s.tree.Keys == t.Keys + {file} &&
        s.tree[file] == RegularFile(e.size, Some(ToOctalString(e.mode))) &&
        forall p :: p in t && p != file ==> s.tree[p] == t[p])
  {
  }

  /**
   * A name whose last segment is `.` names a directory, not a file: the
   * operating system refuses to open it for writing, whatever is there.
   */
  predicate EndsInDot(name: string) {
    name == "." || EndsWith(name, "/.")
  }

  /**
   * One pass of unroll's loop: a name ending in "/" is a mkdirs of the name
   * without it; a blank name (one that trims to "") is skipped; anything
   * else is written as a file, which cannot be opened when its last segment
   * is `.`.
   */
  function UnpackEntry(t: Tree, e: TarEntry, archive: string): Step {
    var name := NormalizeName(e.name);
    if EndsWith(name, "/") then DirectoryStep(t, Resolve(name[..|name| - 1]))
    else if IsBlank(name) then Continue(t)
    else if EndsInDot(name) then Halt(t, CannotOpen(Resolve(name)))
    else FileStep(t, Resolve(name), e, archive)
  }

  /** What handling one entry does to the tree. */
  type EntryStep = (Tree, TarEntry) -> Step

  /** Handle one more entry, unless the walk has already failed. */
  function Then(s: Step, e: TarEntry, step: EntryStep): Step {
    if s.Halt? then s else step(s.tree, e)
  }

  /** The entries in stream order; the first failure ends the walk. */
  function Walk(t: Tree, es: seq<TarEntry>, step: EntryStep): Step {
    if es == [] then Continue(t) else Then(Walk(t, es[..|es| - 1], step), es[|es| - 1], step)
  }

  /** Carry on with more entries, unless the walk has already failed. */
  function Resume(s: Step, es: seq<TarEntry>, step: EntryStep): Step {
    if s.Halt? then s else Walk(s.tree, es, step)
  }

  lemma WalkSnoc(t: Tree, es: seq<TarEntry>, e: TarEntry, step: EntryStep)
    ensures Walk(t, es + [e], step) == Then(Walk(t, es, step), e, step)
  {
    assert (es + [e])[..|es|] == es;
  }

  /** Entries are handled strictly in order: the second part starts from where the first left off. */
  lemma {:induction false} WalkAppend(t: Tree, a: seq<TarEntry>, b: seq<TarEntry>, step: EntryStep)
    ensures Walk(t, a + b, step) == Resume(Walk(t, a, step), b, step)
    decreases |b|
  {
    if b == [] {
      assert a + b == a;
    } else {
      var init, last := b[..|b| - 1], b[|b| - 1];
      assert a + b == (a + init) + [last];
      WalkSnoc(t, a + init, last, step);
      WalkAppend(t, a, init, step);
      if Walk(t, a, step).Continue? {
        WalkSnoc(Walk(t, a, step).tree, init, last, step);
        assert init + [last] == b;
      }
    }
  }

  /** A failing entry ends the walk: nothing after it is looked at. */
  lemma FailureIsFinal(t: Tree, es: seq<TarEntry>, i: nat, step: EntryStep)
    requires i < |es|
    requires Then(Walk(t, es[..i], step), es[i], step).Halt?
    ensures Walk(t, es, step) == Then(Walk(t, es[..i], step), es[i], step)
  {
    assert es == es[..i + 1] + es[i + 1..];
    assert es[..i + 1] == es[..i] + [es[i]];
    WalkSnoc(t, es[..i], es[i], step);
    WalkAppend(t, es[..i + 1], es[i + 1..], step);
  }

  /** unroll's step, for the archive at `archive`. */
  function Unpacker(archive: string): EntryStep {
    (u: Tree, e: TarEntry) => UnpackEntry(u, e, archive)
  }

  /** unroll's walk over the entries of the archive at `archive`. */
  function Unpack(t: Tree, es: seq<TarEntry>, archive: string): Step {
    Walk(t, es, Unpacker(archive))
  }

  /** "//" is a mkdirs of `dir` itself, so it fails when `dir` exists. */
  lemma RootDirectoryEntry(t: Tree, size: int, mode: Int32, copied: int, archive: string)
    requires [] in t
    ensures UnpackEntry(t, TarEntry("//", size, mode, copied), archive) == Halt(t, CannotCreateDirectory([]))
  {
    assert "//"[0] == '/';
    assert "//"[1..] == "/";
    assert NormalizeName("//") == "/";
    assert EndsWith("/", "/");
    assert "/"[..0] == "";
    assert Resolve("") == [];
  }

  /** A name that is blank once normalised (such as "./") changes nothing and is no error. */
  lemma BlankEntrySkipped(t: Tree, e: TarEntry, archive: string)
    requires !EndsWith(NormalizeName(e.name), "/") && IsBlank(NormalizeName(e.name))
    ensures UnpackEntry(t, e, archive) == Continue(t)
  {
    BlankConcat("", NormalizeName(e.name));
    assert "" + NormalizeName(e.name) == NormalizeName(e.name);
  }

  lemma DotSlashSkipped(t: Tree, size: int, mode: Int32, copied: int, archive: string)
    ensures UnpackEntry(t, TarEntry("./", size, mode, copied), archive) == Continue(t)
  {
    assert StartsWith("./", "./");
    assert "./"[2..] == "";
    assert NormalizeName("./") == "";
    BlankEntrySkipped(t, TarEntry("./", size, mode, copied), archive);
  }

  /**
   * A file entry whose last segment is `.` fails to open and changes
   * nothing, even where `x/.` resolves to a missing `x` or a plain file.
   */
  lemma DotEntryFails(t: Tree, e: TarEntry, archive: string)
    requires EndsWith(NormalizeName(e.name), "/.")
    ensures UnpackEntry(t, e, archive) == Halt(t, CannotOpen(Resolve(NormalizeName(e.name))))
  {
    var name := NormalizeName(e.name);
    assert name[|name| - 1] == '.';
    assert !EndsWith(name, "/");
    assert !IsBlank(name) by {
      assert !IsTrimmed(name[|name| - 1]);
    }
  }

  /** No entry removes anything, and a directory stays a directory. */
  lemma EntryKeeps(t: Tree, e: TarEntry, archive: string)
    ensures forall p :: p in t ==> p in UnpackEntry(t, e, archive).tree
    ensures forall p :: p in t && t[p].Directory? ==> UnpackEntry(t, e, archive).tree[p].Directory?
  {
    var name := NormalizeName(e.name);
    if EndsWith(name, "/") {
      var subdir := Resolve(name[..|name| - 1]);
      assert UnpackEntry(t, e, archive) == DirectoryStep(t, subdir);
      DirectoryStepKeeps(t, subdir);
    } else if !IsBlank(name) && !EndsInDot(name) {
      assert UnpackEntry(t, e, archive) == FileStep(t, Resolve(name), e, archive);
      FileStepKeeps(t, Resolve(name), e, archive);
    }
  }

  lemma DirectoryStepKeeps(t: Tree, subdir: Path)
    ensures forall p :: p in t ==> p in DirectoryStep(t, subdir).tree
    ensures forall p :: p in t && t[p].Directory? ==> DirectoryStep(t, subdir).tree[p].Directory?
  {
    DirectoryEntry(t, subdir);
  }

  lemma FileStepKeeps(t: Tree, file: Path, e: TarEntry, archive: string)
    ensures forall p :: p in t ==> p in FileStep(t, file, e, archive).tree
    ensures forall p :: p in t && t[p].Directory? ==> FileStep(t, file, e, archive).tree[p].Directory?
  {
    FileEntry(t, file, e, archive);
  }

  lemma {:induction false} UnpackKeeps(t: Tree, es: seq<TarEntry>, archive: string)
    ensures forall p :: p in t ==> p in Unpack(t, es, archive).tree
    ensures forall p :: p in t && t[p].Directory? ==> Unpack(t, es, archive).tree[p].Directory?
    decreases |es|
  {
    if es != [] {
      var init := es[..|es| - 1];
      UnpackKeeps(t, init, archive);
      var s := Unpack(t, init, archive);
      assert Unpack(t, es, archive) == Then(s, es[|es| - 1], Unpacker(archive));
      if s.Continue? {
        EntryKeeps(s.tree, es[|es| - 1], archive);
      }
    }
  }

  lemma DirectoryStepWellFormed(t: Tree, subdir: Path)
    requires WellFormed(t)
    ensures WellFormed(DirectoryStep(t, subdir).tree)
  {
    if AfterMkdirs(t, subdir).Some? {
      MkdirsWellFormed(t, subdir);
    }
  }

  lemma FileStepWellFormed(t: Tree, file: Path, e: TarEntry, archive: string)
    requires WellFormed(t)
    ensures WellFormed(FileStep(t, file, e, archive).tree)
  {
    var w := AfterWrite(t, file, e.copied);
    if w.Some? {
      WriteWellFormed(t, file, e.copied);
      ChmodWellFormed(w.value, file, ToOctalString(e.mode));
    }
  }

  /** Each entry keeps the tree well formed. */
  lemma EntryWellFormed(t: Tree, e: TarEntry, archive: string)
    requires WellFormed(t)
    ensures WellFormed(UnpackEntry(t, e, archive).tree)
  {
    var name := NormalizeName(e.name);
    if EndsWith(name, "/") {
      DirectoryStepWellFormed(t, Resolve(name[..|name| - 1]));
    } else if !IsBlank(name) && !EndsInDot(name) {
      FileStepWellFormed(t, Resolve(name), e, archive);
    }
  }

  lemma {:induction false} UnpackWellFormed(t: Tree, es: seq<TarEntry>, archive: string)
    requires WellFormed(t)
    ensures WellFormed(Unpack(t, es, archive).tree)
    decreases |es|
  {
    if es != [] {
      var init := es[..|es| - 1];
      UnpackWellFormed(t, init, archive);
      var s := Unpack(t, init, archive);
      assert Unpack(t, es, archive) == Then(s, es[|es| - 1], Unpacker(archive));
      if s.Continue? {
        EntryWellFormed(s.tree, es[|es| - 1], archive);
      }
    }
  }

  /** Where unroll leaves the directory, and the error it fails with, if any. */
  datatype Outcome = Outcome(tree: Tree, error: Option<UnrollError>)

  function Unrolled(t: Tree, stream: TarStream, archive: string): Outcome {
    match Unpack(t, stream.entries, archive)
    case Halt(u, err) => Outcome(u, Some(err))
    case Continue(u) => Outcome(u, if stream.readError then Some(ReadError) else None)
  }

  /**
   * The body of unroll's loop for one entry: normalise the name, then make
   * the directory, skip the entry, or write and chmod the file.
   */
  method ExtractEntry(disk: Disk, entry: TarEntry, path: string) returns (error: Option<UnrollError>)
    modifies disk
    ensures var s := UnpackEntry(old(disk.tree), entry, path);
      disk.tree == s.tree && (error.None? <==> s.Continue?) && (error.Some? ==> error.value == s.error)
  {
    ghost var before := disk.tree;
    var name := entry.name;
    if StartsWith(name, "./") {
      name := name[2..];
    }
    if StartsWith(name, "/") {
      name := name[1..];
    }
    assert name == NormalizeName(entry.name);
    if EndsWith(name, "/") {
      var subdir := Resolve(name[..|name| - 1]);
      assert UnpackEntry(before, entry, path) == DirectoryStep(before, subdir);
      var created := disk.Mkdirs(subdir);
      if !created {
        return Some(CannotCreateDirectory(subdir));
      }
      return None;
    }
    TrimIsMiddle(name);
    if |Trim(name)| == 0 {
      assert UnpackEntry(before, entry, path) == Continue(before);
      return None;
    }
    var file := Resolve(name);
    if name == "." || EndsWith(name, "/.") {
      assert UnpackEntry(before, entry, path) == Halt(before, CannotOpen(file));
      return Some(CannotOpen(file));
    }
    assert UnpackEntry(before, entry, path) == FileStep(before, file, entry, path);
    var ok := disk.Write(file, entry.copied);
    if !ok {
      return Some(CannotOpen(file));
    }
    if entry.copied != entry.size {
      return Some(SizeMismatch(entry.size, entry.name, path));
    }
    disk.Chmod(file, ToOctalString(entry.mode));
    return None;
  }

  /**
   * unroll(tarball, dir): extract every entry into `disk` in stream order,
   * returning `dir` on success. `read` is the tar reader over the chosen
   * decompressor.
   */
  method Unroll(disk: Disk, tarball: string, read: Codec -> TarStream) returns (r: Result<string, UnrollError>)
    modifies disk
    ensures var o := Unrolled(old(disk.tree), read(SelectCodec(tarball).codec), tarball);
      disk.tree == o.tree &&
      (r.Success? <==> o.error.None?) &&
      (r.Success? ==> r.value == disk.location) &&
      (r.Failure? ==> r.error == o.error.value)
  {
    var path := tarball;
    var codec := SelectCodec(path).codec;
    var stream := read(codec);
    var entries := stream.entries;
    ghost var t0 := disk.tree;
    var i := 0;
    while i < |entries|
      invariant 0 <= i <= |entries|
      invariant Unpack(t0, entries[..i], path) == Continue(disk.tree)
    {
      var error := ExtractEntry(disk, entries[i], path);
      UnpackStep(t0, entries, i, path);
      if error.Some? {
        UnrolledHalt(t0, stream, i, path);
        return Failure(error.value);
      }
      i := i + 1;
    }
    UnrolledEnd(t0, stream, path);
    if stream.readError {
      return Failure(ReadError);
    }
    return Success(disk.location);
  }

  lemma UnpackStep(t: Tree, es: seq<TarEntry>, i: nat, archive: string)
    requires i < |es| && Unpack(t, es[..i], archive).Continue?
    ensures Unpack(t, es[..i + 1], archive) == UnpackEntry(Unpack(t, es[..i], archive).tree, es[i], archive)
  {
    WalkStep(t, es, i, Unpacker(archive));
  }

  /** The walk over one more entry applies the step to where the walk stood. */
  lemma WalkStep(t: Tree, es: seq<TarEntry>, i: nat, step: EntryStep)
    requires i < |es| && Walk(t, es[..i], step).Continue?
    ensures Walk(t, es[..i + 1], step) == step(Walk(t, es[..i], step).tree, es[i])
  {
    WalkSnoc(t, es[..i], es[i], step);
    assert es[..i + 1] == es[..i] + [es[i]];
  }

  /** When the entry at `i` fails, so does unroll, with that entry's tree and error. */
  lemma UnrolledHalt(t: Tree, stream: TarStream, i: nat, archive: string)
    requires i < |stream.entries| && Unpack(t, stream.entries[..i], archive).Continue?
    requires UnpackEntry(Unpack(t, stream.entries[..i], archive).tree, stream.entries[i], archive).Halt?
    ensures var s := UnpackEntry(Unpack(t, stream.entries[..i], archive).tree, stream.entries[i], archive);
      Unrolled(t, stream, archive) == Outcome(s.tree, Some(s.error))
  {
    FailureIsFinal(t, stream.entries, i, Unpacker(archive));
  }

  lemma UnrolledEnd(t: Tree, stream: TarStream, archive: string)
    requires Unpack(t, stream.entries[..|stream.entries|], archive).Continue?
    ensures var u := Unpack(t, stream.entries[..|stream.entries|], archive).tree;
      Unrolled(t, stream, archive) == Outcome(u, if stream.readError then Some(ReadError) else None)
  {
    assert stream.entries[..|stream.entries|] == stream.entries;
  }

  /**
   * A file entry whose copy comes up short makes unroll fail with that
   * entry's declared size and original name and the archive's path,
   * whatever entries follow it.
   */
  lemma SizeMismatchStopsUnroll(t: Tree, stream: TarStream, i: nat, archive: string)
    requires i < |stream.entries| && Unpack(t, stream.entries[..i], archive).Continue?
    requires var e := stream.entries[i];
      var name := NormalizeName(e.name);
      !EndsWith(name, "/") && !IsBlank(name) && !EndsInDot(name) && e.copied != e.size &&
      AfterWrite(Unpack(t, stream.entries[..i], archive).tree, Resolve(name), e.copied).Some?
    ensures var e := stream.entries[i];
      Unrolled(t, stream, archive).error == Some(SizeMismatch(e.size, e.name, archive))
  {
    var e := stream.entries[i];
    var u := Unpack(t, stream.entries[..i], archive).tree;
    var file := Resolve(NormalizeName(e.name));
    FileEntry(u, file, e, archive);
    assert UnpackEntry(u, e, archive) == FileStep(u, file, e, archive);
    UnrolledHalt(t, stream, i, archive);
  }

  /**
   * unroll(tarball): extract into a fresh temporary directory at
   * `tempLocation`, which is deleted again when extraction fails.
   */
  method UnrollToTemp(tempLocation: string, tarball: string, read: Codec -> TarStream)
    returns (disk: Disk, r: Result<string, UnrollError>)
    ensures fresh(disk) && disk.location == tempLocation
    ensures var o := Unrolled(map[[] := Directory], read(SelectCodec(tarball).codec), tarball);
      (r.Success? <==> o.error.None?) &&
      (r.Success? ==> r.value == tempLocation && disk.tree == o.tree) &&
      (r.Failure? ==> r.error == o.error.value && disk.tree == map[])
  {
    disk := new Disk(tempLocation, map[[] := Directory]);
    r := Unroll(disk, tarball, read);
    if r.Failure? {
      disk.DeleteDirectory();
    }
  }

  /** The supplied directory survives unroll(tarball, dir), whatever happens. */
  lemma UnrollKeepsDir(t: Tree, stream: TarStream, archive: string)
    requires [] in t && t[[]].Directory?
    ensures [] in Unrolled(t, stream, archive).tree
    ensures forall p :: p in t ==> p in Unrolled(t, stream, archive).tree
  {
    UnpackKeeps(t, stream.entries, archive);
  }

  // ---------------------------------------------------------------------
  // Roll

  /** String.substring(begin). */
  function Substring(s: string, begin: int): (r: Result<string, JavaException>)
    ensures r.Success? <==> 0 <= begin <= |s|
    ensures r.Failure? ==> r.error == IndexOutOfBounds
    ensures r.Success? ==> r.value == s[begin..]
  {
    if 0 <= begin <= |s| then Success(s[begin..]) else Failure(IndexOutOfBounds)
  }

  /**
   * The directory the archive is rooted at, relative to cwd: "." for equal
   * paths; a failure for a dir whose path does not start with cwd's; and,
   * for a longer dir starting with cwd's, the substring of cwd's path from
   * the length of dir's, which is past its end and fails.
   */
  function RelativeRoot(dirAbs: string, cwdAbs: string): (r: Result<string, JavaException>)
    ensures r.Success? <==> dirAbs == cwdAbs
    ensures r.Success? ==> r.value == "."
    ensures r == Failure(Died("tarball dir is not within cwd")) <==> !StartsWith(dirAbs, cwdAbs)
    ensures StartsWith(dirAbs, cwdAbs) && dirAbs != cwdAbs ==> r == Failure(IndexOutOfBounds)
  {
    if dirAbs == cwdAbs then Success(".")
    else if StartsWith(dirAbs, cwdAbs) then
      assert |dirAbs| != |cwdAbs| by {
        assert dirAbs[..|cwdAbs|] == cwdAbs;
      }
      Substring(cwdAbs, |dirAbs|)
    else Failure(Died("tarball dir is not within cwd"))
  }

  /** The external command roll runs: its arguments and the directory it runs in. */
  datatype Invocation = Invocation(args: seq<string>, workDir: string)

  /** What a successful roll does: run the command, then return the tarball. */
  datatype Rolled = Rolled(command: Invocation, tarball: string)

  /**
   * roll(tarball, dir, cwd), on absolute paths; an absent cwd means dir.
   * Only when cwd is dir does it get as far as `tar czf <tarball> .` in cwd.
   */
  function Roll(tarballAbs: string, dirAbs: string, cwdAbs: Option<string>): (r: Result<Rolled, JavaException>)
    ensures var cwd := if cwdAbs.None? then dirAbs else cwdAbs.value;
      (r.Success? <==> cwd == dirAbs) &&
      (r.Success? ==> r.value == Rolled(Invocation(["tar", "czf", tarballAbs, "."], cwd), tarballAbs)) &&
      (r.Failure? ==> r.error == RelativeRoot(dirAbs, cwd).error)
  {
    var cwd := if cwdAbs.None? then dirAbs else cwdAbs.value;
    match RelativeRoot(dirAbs, cwd)
    case Failure(err) => Failure(err)
    case Success(dirPath) => Success(Rolled(Invocation(["tar", "czf", tarballAbs, dirPath], cwd), tarballAbs))
  }

  /** roll(tarball, dir): rooted at dir itself, which always gets to the command. */
  function RollIn(tarballAbs: string, dirAbs: string): (r: Result<Rolled, JavaException>)
    ensures r == Success(Rolled(Invocation(["tar", "czf", tarballAbs, "."], dirAbs), tarballAbs))
  {
    Roll(tarballAbs, dirAbs, Some(dirAbs))
  }

  /** roll(dir): into a fresh `temp-tarball-*.tar.gz` file, whose path is given. */
  function RollToTemp(tempTarballAbs: string, dirAbs: string): (r: Result<Rolled, JavaException>)
    ensures r.Success? && r.value.tarball == tempTarballAbs
    ensures r.value.command == Invocation(["tar", "czf", tempTarballAbs, "."], dirAbs)
  {
    Roll(tempTarballAbs, dirAbs, Some(dirAbs))
  }

  /** A dir outside cwd fails with the "not within cwd" message. */
  lemma RollOutsideCwd()
    ensures Roll("/t.tgz", "/a/b/c", Some("/a/x")) == Failure(Died("tarball dir is not within cwd"))
  {
    assert "/a/b/c"[..4] != "/a/x" by {
      assert "/a/b/c"[3] != "/a/x"[3];
    }
  }

  /** A dir strictly inside cwd fails too: the substring starts past the end of cwd's path. */
  lemma RollDescendantFails()
    ensures Roll("/t.tgz", "/a/x/c", Some("/a/x")) == Failure(IndexOutOfBounds)
  {
    assert "/a/x/c"[..4] == "/a/x";
  }

  /** The containment test compares raw text: "/a/xy" counts as inside "/a/x". */
  lemma RollRawPrefix()
    ensures Roll("/t.tgz", "/a/xy", Some("/a/x")) == Failure(IndexOutOfBounds)
  {
    assert "/a/xy"[..4] == "/a/x";
  }
}
