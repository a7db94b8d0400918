# cobbzilla-utils: tarballs, file helpers, dollar rewriting, DNS types

The project models four parts of the cobbzilla-utils Java library in Dafny and proves properties of each model.

- **`Tarball`.** `unroll` extracts a gzip or bzip2 tar archive into a directory, entry by entry. `roll` builds the `tar czf` command that creates an archive.
  - The directory is an abstract filesystem (`Filesystem`). It is a map from each path below the target directory to a `Directory` or a `RegularFile(size, mode)`.
  - It lives in a `Disk` object whose methods change it in place.
  - `Unroll` is a method whose `while` loop goes over the entries the tar reader delivers. Its loop invariant says the disk holds the result of `Unpack` applied to the entries already handled.
- **`FileUtil`.** This module covers three groups:
  - the path-string helpers `chopSuffix`, `extension`, `removeExtension`, `dirname` and `basename`;
  - the line filters `toStringList` and `toStringExcludingLines`;
  - the tree walks `listFilesRecursively`, `countFilesWithName` and `mostRecentFile`, over a `FileTree` that stands for what `File.listFiles()` reports.
- **`JsEngine.replaceDollarSigns`.** This is a three-stage rewrite:
  - `'$` is protected;
  - every `$` followed by digits and optional `.dd` cents becomes `(N * 100)`;
  - the protection is undone.

  The regular expression is modelled as a left-to-right scanner, `RewriteAmounts`.
- **`DnsType`.** This is the 34 enum constants and `create`, which upper-cases its argument and looks the constant up by name.

`JavaString` models the `java.lang.String` operations these use:
- `startsWith`;
- `endsWith`;
- `lastIndexOf`;
- `trim`;
- literal `replace`;
- ASCII `toUpperCase`.

`Results` holds `Option`, `Result` and `JavaException`, the exceptions the modelled code throws. Java exceptions and `die(...)` become `Failure` values.

## Model

| member | source | states |
|---|---|---|
| JavaString.LastIndexOf | src/main/java/org/cobbzilla/util/io/FileUtil.java:76 | -1 exactly when the character is absent; otherwise an index holding it with no occurrence after it |
| JavaString.TrimIsMiddle | src/main/java/org/cobbzilla/util/io/FileUtil.java:140 | the result is the middle of the input with blank (<= U+0020) runs cut off both ends, non-blank at both ends, and empty exactly when the input is blank |
| JavaString.Trim | src/main/java/org/cobbzilla/util/io/FileUtil.java:140 | String.trim; its own contract is only a length bound, TrimIsMiddle states what it removes |
| JavaString.ToUpper | src/main/java/org/cobbzilla/util/dns/DnsType.java:13 | same length; every character upper-cased, ASCII letters only |
| JavaString.ToUpperIdempotent | src/main/java/org/cobbzilla/util/dns/DnsType.java:13 | upper-casing twice is upper-casing once |
| JavaString.Replace | src/main/java/org/cobbzilla/util/javascript/JsEngine.java:46-48 | literal String.replace, left to right without overlap; no contract of its own, its behaviour is stated by the four lemmas below |
| JavaString.ReplaceAbsent | src/main/java/org/cobbzilla/util/javascript/JsEngine.java:46 | replace leaves a string without the target unchanged |
| JavaString.ReplaceSkips | src/main/java/org/cobbzilla/util/javascript/JsEngine.java:46 | a prefix in which no match starts is copied through unchanged |
| JavaString.ReplaceSkipsFree | src/main/java/org/cobbzilla/util/javascript/JsEngine.java:46 | a prefix free of the target's first character is copied through |
| JavaString.ReplaceAtStart | src/main/java/org/cobbzilla/util/javascript/JsEngine.java:46 | a match at the start is replaced and scanning resumes after it, without overlap |
| JsEngine.RewriteAmounts | src/main/java/org/cobbzilla/util/javascript/JsEngine.java:47 | the replaceAll of `\$(\d+(\.\d{2})?)` as a left-to-right scanner; no contract of its own, its behaviour is stated by the JsEngine lemmas below |
| JsEngine.ReplaceDollarSigns | src/main/java/org/cobbzilla/util/javascript/JsEngine.java:45-49 | the three stages in order; no contract of its own, see Unchanged, NoQuotedDollar, QuotedDollarKept and QuotedAmountKept |
| JsEngine.DigitRunIsMaximal | src/main/java/org/cobbzilla/util/javascript/JsEngine.java:47 | the greedy `\d+`: a prefix of digits followed by a non-digit or the end |
| JsEngine.AmountLength | src/main/java/org/cobbzilla/util/javascript/JsEngine.java:47 | the amount after `$` is empty exactly when no digit follows |
| JsEngine.DigitRunOf | src/main/java/org/cobbzilla/util/javascript/JsEngine.java:47 | the run of a digit string followed by a non-digit is that digit string |
| JsEngine.RewriteCopies | src/main/java/org/cobbzilla/util/javascript/JsEngine.java:47 | a character other than `$` is copied |
| JsEngine.RewriteLoneDollar | src/main/java/org/cobbzilla/util/javascript/JsEngine.java:47 | a `$` not followed by a digit is left alone |
| JsEngine.RewriteWhole | src/main/java/org/cobbzilla/util/javascript/JsEngine.java:47 | `$` + a maximal digit run without cents becomes `(d * 100)` |
| JsEngine.RewriteWithCents | src/main/java/org/cobbzilla/util/javascript/JsEngine.java:47 | `$d.cc` with exactly two cents digits becomes `(d.cc * 100)`; whatever follows, such as the `4` of `$1.234`, is rewritten after it |
| JsEngine.AdjacentAmounts | src/main/java/org/cobbzilla/util/javascript/JsEngine.java:47 | matches are taken left to right without overlap: two amounts back to back, `$d1$d2`, become `(d1 * 100)(d2 * 100)` |
| JsEngine.ExampleNoDigit | src/main/java/org/cobbzilla/util/javascript/JsEngine.java:47 | `$x` is unchanged |
| JsEngine.RewriteSkips | src/main/java/org/cobbzilla/util/javascript/JsEngine.java:47 | text without `$` passes through the rewrite unchanged |
| JsEngine.Unchanged | src/main/java/org/cobbzilla/util/javascript/JsEngine.java:44-49 | an input with neither `$` nor the marker text is returned unchanged |
| JsEngine.DigitRunStops | src/main/java/org/cobbzilla/util/javascript/JsEngine.java:47 | a digit run ends at the first non-digit |
| JsEngine.AmountStops | src/main/java/org/cobbzilla/util/javascript/JsEngine.java:47 | an amount ends at a separator character |
| JsEngine.RewriteSplits | src/main/java/org/cobbzilla/util/javascript/JsEngine.java:47 | the rewrite distributes over a separator character |
| JsEngine.RewriteAddsNoUnderscore | src/main/java/org/cobbzilla/util/javascript/JsEngine.java:47 | the rewrite introduces no `_` |
| JsEngine.ProtectFirst | src/main/java/org/cobbzilla/util/javascript/JsEngine.java:46 | the first `'$` becomes the marker |
| JsEngine.RewriteAround | src/main/java/org/cobbzilla/util/javascript/JsEngine.java:47 | text that begins with a separator and holds no `$` is copied and splits the rewrite in two independent halves |
| JsEngine.RewriteAroundMarker | src/main/java/org/cobbzilla/util/javascript/JsEngine.java:47 | the marker is not touched by the rewrite, which works on either side of it |
| JsEngine.RestoreAfter | src/main/java/org/cobbzilla/util/javascript/JsEngine.java:48 | the marker turns back into `'$` |
| JsEngine.QuotedDollarKept | src/main/java/org/cobbzilla/util/javascript/JsEngine.java:45-49 | for `_`-free text, a `'$` comes out unchanged and the text before it is rewritten on its own |
| JsEngine.NoQuotedDollar | src/main/java/org/cobbzilla/util/javascript/JsEngine.java:45-49 | for `_`-free text without `'$`, the whole pipeline is the amount rewrite |
| JsEngine.PipelineSkips | src/main/java/org/cobbzilla/util/javascript/JsEngine.java:45-49 | a prefix free of `'`, `$` and `_` is copied through the pipeline |
| JsEngine.QuotedAmountKept | src/main/java/org/cobbzilla/util/javascript/JsEngine.java:45-49 | for `_`-free text before and after it: after the first `'$`, the digits that follow it are kept as they are and the rest of the text is processed on its own |
| JsEngine.MarkerInInput | src/main/java/org/cobbzilla/util/javascript/JsEngine.java:44-49 | marker text already in the input comes out as `'$` |
| Dns.Name | src/main/java/org/cobbzilla/util/dns/DnsType.java:7-11 | Enum.name(); no contract of its own, see NameInjective and NameIsUpperCase |
| Dns.Ordinal | src/main/java/org/cobbzilla/util/dns/DnsType.java:7-11 | every constant's position is below 34 |
| Dns.Values | src/main/java/org/cobbzilla/util/dns/DnsType.java:7-11 | the 34 constants in declaration order, each at its own ordinal |
| Dns.OrdinalOfFromOrdinal | src/main/java/org/cobbzilla/util/dns/DnsType.java:7-11 | positions and constants correspond one to one |
| Dns.ValueOf | src/main/java/org/cobbzilla/util/dns/DnsType.java:13 | Enum.valueOf; no contract of its own, see ValueOfFound, ValueOfMissing and ValueOfName |
| Dns.ValueOfFound | src/main/java/org/cobbzilla/util/dns/DnsType.java:13 | valueOf finds only a constant with exactly that name |
| Dns.ValueOfMissing | src/main/java/org/cobbzilla/util/dns/DnsType.java:13 | valueOf fails only when no constant has that name |
| Dns.Create | src/main/java/org/cobbzilla/util/dns/DnsType.java:13 | null fails; success gives the constant named by the upper-cased text; failure means no constant has that name and carries the valueOf message |
| Dns.ValueOfName | src/main/java/org/cobbzilla/util/dns/DnsType.java:13 | valueOf(name(t)) == t |
| Dns.NameInjective | src/main/java/org/cobbzilla/util/dns/DnsType.java:7-11 | distinct constants have distinct names |
| Dns.ThirtyFourDistinct | src/main/java/org/cobbzilla/util/dns/DnsType.java:7-11 | exactly 34 constants with pairwise distinct names |
| Dns.OrdinalInjective | src/main/java/org/cobbzilla/util/dns/DnsType.java:7-11 | distinct constants have distinct positions |
| Dns.FromOrdinalOfOrdinal | src/main/java/org/cobbzilla/util/dns/DnsType.java:7-11 | every constant is found again at its own position |
| Dns.CreateName | src/main/java/org/cobbzilla/util/dns/DnsType.java:13 | create(name(t)) == t for every constant |
| Dns.NameIsUpperCase | src/main/java/org/cobbzilla/util/dns/DnsType.java:7-11 | constant names have no lower-case letter |
| Dns.CreateIgnoresCase | src/main/java/org/cobbzilla/util/dns/DnsType.java:13 | create(s) == create(upper(s)) |
| Dns.CreateLowerCase | src/main/java/org/cobbzilla/util/dns/DnsType.java:13 | "mx" gives MX |
| Dns.CreateMixedCase | src/main/java/org/cobbzilla/util/dns/DnsType.java:13 | "Txt" gives TXT |
| Dns.CreateUnknown | src/main/java/org/cobbzilla/util/dns/DnsType.java:13 | "mx." is not a constant and fails |
| FileUtil.ChopSuffix | src/main/java/org/cobbzilla/util/io/FileUtil.java:74-79 | null gives null; no `.` or a final `.` gives the path unchanged; otherwise the strict prefix before the last `.` |
| FileUtil.Extension | src/main/java/org/cobbzilla/util/io/FileUtil.java:384-388 | "" without a `.`; otherwise the suffix from the last `.`, with no `.` after its first character |
| FileUtil.ChopSuffixThenExtension | src/main/java/org/cobbzilla/util/io/FileUtil.java:74-88 | chopSuffix(p) + extension(p) == p when the last `.` is not final |
| FileUtil.TrailingDotCountedTwice | src/main/java/org/cobbzilla/util/io/FileUtil.java:74-79 | with a final `.`, the two halves add up to p + "." |
| FileUtil.RemoveExtension | src/main/java/org/cobbzilla/util/io/FileUtil.java:390-392 | succeeds exactly when ext is no longer than the name, and drops exactly that many trailing characters; otherwise an index error |
| FileUtil.RemoveExtensionOf | src/main/java/org/cobbzilla/util/io/FileUtil.java:390-392 | removing the extension a name ends with gives the stem |
| FileUtil.RemoveExtensionIgnoresText | src/main/java/org/cobbzilla/util/io/FileUtil.java:390-392 | the characters of ext are never compared with the name |
| FileUtil.Dirname | src/main/java/org/cobbzilla/util/io/FileUtil.java:328-334 | an empty or null path fails with the NPE message; no `/` gives "."; otherwise the text before the last `/` of the path as given |
| FileUtil.Basename | src/main/java/org/cobbzilla/util/io/FileUtil.java:336-342 | an empty path fails with the NPE message; no `/` gives the path; a final `/` fails with the invalid-path message; otherwise the non-empty, slash-free text after the last `/` |
| FileUtil.DirnameSlashBasename | src/main/java/org/cobbzilla/util/io/FileUtil.java:328-342 | dirname(p) + "/" + basename(p) == p for a path with a `/` that does not end in `/` |
| FileUtil.DirnameExamples | src/main/java/org/cobbzilla/util/io/FileUtil.java:328-334 | "a/b/" gives "a/b", "/x" gives "", and "x" gives "." |
| FileUtil.ToStringList | src/main/java/org/cobbzilla/util/io/FileUtil.java:135-144 | one trimmed string per line, in order |
| FileUtil.KeptLines | src/main/java/org/cobbzilla/util/io/FileUtil.java:321-322 | the lines toStringExcludingLines keeps; no contract of its own, see KeptLinesMembers and KeptLinesAppend |
| FileUtil.KeptLinesMembers | src/main/java/org/cobbzilla/util/io/FileUtil.java:321-323 | a line is kept exactly when it is in the input and its trimmed form does not start with the prefix |
| FileUtil.ToStringExcludingLines | src/main/java/org/cobbzilla/util/io/FileUtil.java:317-326 | the kept lines, in input order, each followed by "\n" |
| FileUtil.KeptLinesAppend | src/main/java/org/cobbzilla/util/io/FileUtil.java:320-324 | filtering works line by line and keeps order |
| FileUtil.JoinedAppend | src/main/java/org/cobbzilla/util/io/FileUtil.java:322 | the output of two runs of lines is the concatenation of each run's output |
| FileUtil.NothingExcluded | src/main/java/org/cobbzilla/util/io/FileUtil.java:317-326 | when no line is excluded every line is kept |
| FileUtil.EmptyPrefixExcludesAll | src/main/java/org/cobbzilla/util/io/FileUtil.java:322 | the empty prefix excludes every line |
| FileUtil.FilterMembers | src/main/java/org/cobbzilla/util/io/FileUtil.java:57 | listFiles(filter) keeps exactly the accepted children: a node is kept if and only if it is a child and accepted |
| FileUtil.Listing | src/main/java/org/cobbzilla/util/io/FileUtil.java:56-66 | what _listRecurse appends; no contract of its own, see ListingFindsAccepted |
| FileUtil.ListingFindsAccepted | src/main/java/org/cobbzilla/util/io/FileUtil.java:50-66 | the recursive listing holds exactly the accepted nodes below the directory, at any depth |
| FileUtil.ListRecurse | src/main/java/org/cobbzilla/util/io/FileUtil.java:56-66 | results grows by the directory's listing: accepted children, then each subdirectory's listing in turn |
| FileUtil.ListFilesRecursively | src/main/java/org/cobbzilla/util/io/FileUtil.java:50-54 | the listing, holding exactly the accepted nodes below the directory |
| FileUtil.CountFilesWithName | src/main/java/org/cobbzilla/util/io/FileUtil.java:456-466 | the number of plain files of that name at any depth, equal to the size of the recursive listing with that name filter |
| FileUtil.FilesIn | src/main/java/org/cobbzilla/util/io/FileUtil.java:401-405 | only plain files are compared; FilesInMembers says which |
| FileUtil.FilesInMembers | src/main/java/org/cobbzilla/util/io/FileUtil.java:401-406 | mostRecentFile compares exactly the plain files inside the directory, at any depth |
| FileUtil.Newest | src/main/java/org/cobbzilla/util/io/FileUtil.java:400-414 | the running result of the loop; no contract of its own, see NewestIsFirstLatest |
| FileUtil.NewestIsFirstLatest | src/main/java/org/cobbzilla/util/io/FileUtil.java:406-412 | none exactly when there are no files; otherwise a file none is newer than, and every file before it strictly older, so the first wins a tie |
| FileUtil.NewestAppend | src/main/java/org/cobbzilla/util/io/FileUtil.java:402-412 | a subdirectory's newest file competes with the running newest like a single file |
| FileUtil.MostRecentFile | src/main/java/org/cobbzilla/util/io/FileUtil.java:398-415 | the newest of the plain files below the directory, the first met on a tie, none when there is none |
| FileUtil.MostRecentIsNewestBelow | src/main/java/org/cobbzilla/util/io/FileUtil.java:398-415 | the result is none exactly when there is no plain file inside the directory, otherwise a plain file inside it that no plain file inside it is newer than |
| Filesystem.Resolve | src/main/java/org/cobbzilla/util/io/Tarball.java:78 | new File(dir, name) as path segments; ResolveShape and ResolveConcat state which |
| Filesystem.ResolveShape | src/main/java/org/cobbzilla/util/io/Tarball.java:78 | every segment is non-empty, not `.` and free of `/` |
| Filesystem.ResolveConcat | src/main/java/org/cobbzilla/util/io/Tarball.java:78 | a `/` splits the name: the segments of `a/b` are those of `a` followed by those of `b` |
| Filesystem.ResolveSimple | src/main/java/org/cobbzilla/util/io/Tarball.java:78 | a plain name is one segment |
| Filesystem.AfterMkdirs | src/main/java/org/cobbzilla/util/io/Tarball.java:69 | mkdirs fails exactly when the directory exists or a file is in the way; otherwise it adds the directory and missing ancestors and changes nothing else |
| Filesystem.MkdirsWellFormed | src/main/java/org/cobbzilla/util/io/Tarball.java:69 | mkdirs keeps every entry's parent a directory |
| Filesystem.AfterWrite | src/main/java/org/cobbzilla/util/io/Tarball.java:79-80 | opening for output fails on dir itself, on a directory, or without a parent directory; otherwise the file has the copied size and nothing else changes |
| Filesystem.WriteWellFormed | src/main/java/org/cobbzilla/util/io/Tarball.java:79 | writing a file keeps the tree well formed |
| Filesystem.AfterChmod | src/main/java/org/cobbzilla/util/io/Tarball.java:84 | chmod sets a regular file's mode and changes nothing else |
| Filesystem.ChmodWellFormed | src/main/java/org/cobbzilla/util/io/Tarball.java:84 | chmod keeps the tree well formed |
| Filesystem.Disk.Mkdirs | src/main/java/org/cobbzilla/util/io/Tarball.java:69 | the disk changes as AfterMkdirs says, and the result says whether it did |
| Filesystem.Disk.Write | src/main/java/org/cobbzilla/util/io/Tarball.java:79-80 | the disk changes as AfterWrite says, and the result says whether the file opened |
| Filesystem.Disk.Chmod | src/main/java/org/cobbzilla/util/io/Tarball.java:84 | the disk changes as AfterChmod says |
| Filesystem.Disk.DeleteDirectory | src/main/java/org/cobbzilla/util/io/Tarball.java:35 | nothing of the directory is left |
| Tarball.SelectCodec | src/main/java/org/cobbzilla/util/io/Tarball.java:46-55 | Bzip2 exactly for `.bz2`; Gzip otherwise; the warning exactly when no known suffix matches |
| Tarball.CodecExamples | src/main/java/org/cobbzilla/util/io/Tarball.java:46-55 | `.xyz` falls back to gzip with a warning; `.tar.bz2` is bzip2; `.tgz` is gzip |
| Tarball.OctalRoundTrip | src/main/java/org/cobbzilla/util/io/Tarball.java:84 | the octal numeral denotes its number |
| Tarball.ToOctalString | src/main/java/org/cobbzilla/util/io/Tarball.java:84 | Integer.toOctalString gives only octal digits; ToOctalStringValue gives their value |
| Tarball.ToOctalStringValue | src/main/java/org/cobbzilla/util/io/Tarball.java:84 | toOctalString denotes the mode read as an unsigned 32-bit value |
| Tarball.OctalStep | src/main/java/org/cobbzilla/util/io/Tarball.java:84 | an octal string is the octal string of the value divided by 8 followed by the last digit |
| Tarball.ToOctalStringRegularFile | src/main/java/org/cobbzilla/util/io/Tarball.java:84 | mode 420 gives "644" |
| Tarball.ToOctalStringExecutable | src/main/java/org/cobbzilla/util/io/Tarball.java:84 | mode 493 gives "755" |
| Tarball.NormalizeName | src/main/java/org/cobbzilla/util/io/Tarball.java:63-65 | the normalised name is a suffix of the entry name |
| Tarball.NormalizeSameTarget | src/main/java/org/cobbzilla/util/io/Tarball.java:63-65 | "./a", "/a" and "a" normalise alike |
| Tarball.NormalizeStripsOnce | src/main/java/org/cobbzilla/util/io/Tarball.java:63-65 | "/./a" and "././a" both become "./a" |
| Tarball.DirectoryEntry | src/main/java/org/cobbzilla/util/io/Tarball.java:66-73 | a directory entry fails exactly when mkdirs would, naming the directory, and otherwise adds only directories |
| Tarball.FileEntry | src/main/java/org/cobbzilla/util/io/Tarball.java:78-84 | a file that cannot be opened fails; a short copy fails with the declared size, the original entry name and the archive path; a full copy leaves a file of that size with the octal mode and nothing else changed |
| Tarball.UnpackEntry | src/main/java/org/cobbzilla/util/io/Tarball.java:63-84 | one pass of the loop; no contract of its own, see DirectoryEntry, FileEntry, DotEntryFails, BlankEntrySkipped and EntryKeeps |
| Tarball.Walk | src/main/java/org/cobbzilla/util/io/Tarball.java:62-85 | the entries in stream order, stopping at the first failure; no contract of its own, see WalkSnoc, WalkAppend and FailureIsFinal |
| Tarball.WalkSnoc | src/main/java/org/cobbzilla/util/io/Tarball.java:62 | one more entry is handled after the ones before it |
| Tarball.WalkAppend | src/main/java/org/cobbzilla/util/io/Tarball.java:62 | entries are handled strictly in stream order: a later part starts where the earlier left off |
| Tarball.FailureIsFinal | src/main/java/org/cobbzilla/util/io/Tarball.java:62-85 | a failing entry ends the walk with its own error; no later entry is looked at |
| Tarball.RootDirectoryEntry | src/main/java/org/cobbzilla/util/io/Tarball.java:65-71 | "//" runs mkdirs on dir itself and fails when dir exists |
| Tarball.DotEntryFails | src/main/java/org/cobbzilla/util/io/Tarball.java:78-79 | a file entry whose last segment is `.` fails to open and changes nothing, whatever is at the path |
| Tarball.BlankEntrySkipped | src/main/java/org/cobbzilla/util/io/Tarball.java:76 | a name that is blank after normalisation changes nothing and is no error |
| Tarball.DotSlashSkipped | src/main/java/org/cobbzilla/util/io/Tarball.java:64-76 | "./" is skipped |
| Tarball.EntryKeeps | src/main/java/org/cobbzilla/util/io/Tarball.java:63-84 | one entry removes nothing and never turns a directory into a file |
| Tarball.UnpackKeeps | src/main/java/org/cobbzilla/util/io/Tarball.java:62-85 | extraction removes nothing and never turns a directory into a file |
| Tarball.DirectoryStepWellFormed | src/main/java/org/cobbzilla/util/io/Tarball.java:66-73 | a directory entry keeps the tree well formed |
| Tarball.FileStepWellFormed | src/main/java/org/cobbzilla/util/io/Tarball.java:78-84 | a file entry keeps the tree well formed |
| Tarball.EntryWellFormed | src/main/java/org/cobbzilla/util/io/Tarball.java:63-84 | every entry keeps the tree well formed |
| Tarball.UnpackWellFormed | src/main/java/org/cobbzilla/util/io/Tarball.java:62-85 | extraction keeps the tree well formed |
| Tarball.Unrolled | src/main/java/org/cobbzilla/util/io/Tarball.java:62-87 | where unroll leaves the directory and its error; no contract of its own, see Unroll, UnrolledHalt and UnrolledEnd |
| Tarball.ExtractEntry | src/main/java/org/cobbzilla/util/io/Tarball.java:63-84 | the loop body changes the disk as UnpackEntry says and reports its error |
| Tarball.Unroll | src/main/java/org/cobbzilla/util/io/Tarball.java:40-88 | the disk ends as the walk over the entries leaves it; the result is dir on success, else the first entry's error or the reader's |
| Tarball.UnpackStep | src/main/java/org/cobbzilla/util/io/Tarball.java:62 | one loop pass extends the handled prefix by one entry |
| Tarball.UnrolledHalt | src/main/java/org/cobbzilla/util/io/Tarball.java:62-85 | a failing entry decides unroll's outcome |
| Tarball.UnrolledEnd | src/main/java/org/cobbzilla/util/io/Tarball.java:62-87 | after the last entry, unroll ends with a read error or succeeds |
| Tarball.SizeMismatchStopsUnroll | src/main/java/org/cobbzilla/util/io/Tarball.java:80-82 | a short copy makes unroll fail with the entry's size, original name and the archive path, whatever follows |
| Tarball.UnrollToTemp | src/main/java/org/cobbzilla/util/io/Tarball.java:30-38 | extracts into a fresh temporary directory; on failure the directory is deleted and the error passed on |
| Tarball.UnrollKeepsDir | src/main/java/org/cobbzilla/util/io/Tarball.java:40-88 | the supplied dir and everything in it survive, even on failure |
| Tarball.Substring | src/main/java/org/cobbzilla/util/io/Tarball.java:127 | substring(begin) fails exactly when begin is outside the string |
| Tarball.RelativeRoot | src/main/java/org/cobbzilla/util/io/Tarball.java:119-131 | "." exactly for equal paths; the not-within-cwd failure exactly when dir does not start with cwd; every other case is an index failure |
| Tarball.Roll | src/main/java/org/cobbzilla/util/io/Tarball.java:116-141 | a null cwd means dir; success exactly when cwd is dir, giving `tar czf <tarball> .` run in cwd and returning the tarball |
| Tarball.RollIn | src/main/java/org/cobbzilla/util/io/Tarball.java:105-107 | roll(tarball, dir) always reaches `tar czf <tarball> .` in dir |
| Tarball.RollToTemp | src/main/java/org/cobbzilla/util/io/Tarball.java:95-97 | roll(dir) always reaches `tar czf <temp file> .` in dir and returns the temp file |
| Tarball.RollOutsideCwd | src/main/java/org/cobbzilla/util/io/Tarball.java:126-130 | "/a/b/c" under cwd "/a/x" fails with "tarball dir is not within cwd" |
| Tarball.RollDescendantFails | src/main/java/org/cobbzilla/util/io/Tarball.java:126-127 | "/a/x/c" under cwd "/a/x" fails too: the substring starts past the end of cwd's path |
| Tarball.RollRawPrefix | src/main/java/org/cobbzilla/util/io/Tarball.java:126 | the containment test is on raw text: "/a/xy" counts as inside "/a/x" |

## Left out

- Decompression and tar header parsing are not modelled. The codec is a tag. The reader is a parameter that returns the entries it would deliver and whether it then throws. A missing or corrupt archive is a stream with no entries, or one that ends in an error.
- `StreamUtil.copyNbytes` is not modelled. The number of bytes it copies is part of each entry, and file contents are reduced to that count.
- `CommandShell.exec` and `CommandShell.chmod` run external processes. `roll` is modelled up to the command it would run. Neither the command's own failure nor a failing `chmod` is modelled.
- The `log.warn` of the codec fallback is a flag.
- The absolute paths (`getAbsolutePath`) and the temporary locations (`Files.createTempDir`, `File.createTempFile`) are inputs.
- The text of the "Error creating directory:" message is not modelled, because it needs the directory's absolute path. The error carries the directory's path below `dir` instead.
- Filesystem.Resolve: it drops empty and `.` segments, as the operating system resolves a path below a directory. A file entry whose last segment is `.` never reaches it: it fails to open (`Tarball.DotEntryFails`). It treats `..` as an ordinary name, so the model does not capture an entry escaping `dir`.
- Concurrency and file-system races are left out.
- `Tarball.ExtractEntry` is the body of unroll's loop, split into its own method. The Java code writes it inline.
- Splitting a `Reader` into lines (`BufferedReader.readLine`) is not modelled. The line functions take the lines.
- The real filesystem listing order and the timestamps are not modelled. `FileTree` fixes the children's order, and the same order is used by `listFiles()` and `listDirs()`.
- `mostRecentFile`'s `exists()` check is not modelled, because every node of a `FileTree` exists.
- JavaString.ToUpper: only ASCII letters are upper-cased. It does not model Java's locale-dependent `toUpperCase` for other characters.
- JavaString.Replace: it requires a non-empty target. All the targets used here are non-empty, and Java's behaviour for an empty target is not modelled.
- JsEngine.QuotedDollarKept: it is stated only for text without `_`. Text containing the marker `__ESCAPED_DOLLAR_SIGN__` is not left alone, as `JsEngine.MarkerInInput` shows.
- `FileUtil.Empty` stands for `ZillaRuntime.empty(String)`, which is taken to mean null or of length 0. `chop` is taken to drop the final character.
- Tarball.Roll: the documented behaviour for a `dir` strictly below `cwd` is to succeed with the relative path (for example `c` for `/a/x/c` under `/a/x`). The code computes `cwdAbsPath.substring(dirAbsPath.length())` instead, which always fails. The model follows the code (`Tarball.RollDescendantFails`).
- `TarEntry.size` and `copied` are unbounded integers. The Java code uses `long`; the modes are 32-bit (`Int32`).
- FileUtil.CountFilesWithName: the count is not limited to Java's 32-bit `int`.
- JsEngine.QuotedAmountKept: it is stated only for `_`-free text before and after the `'$`, for the reason given for `JsEngine.QuotedDollarKept`.
- FileUtil.Extension: its argument is a plain string, so the NullPointerException Java throws for a null name is not modelled.
- FileUtil.RemoveExtension: its `ext` is a plain string, so the NullPointerException Java throws for a null `ext` is not modelled.
- FileUtil.ToStringExcludingLines: its `prefix` is a plain string, so the NullPointerException Java throws for a null `prefix` (as soon as there is a line) is not modelled.
- JsEngine.ReplaceDollarSigns: its argument is a plain string, so the NullPointerException Java throws for a null value is not modelled.
- A Dafny `char` is a Unicode scalar value, where Java's `String` counts UTF-16 code units. For text with characters outside the Basic Multilingual Plane, lengths and indices differ from Java's, so `removeExtension`, `lastIndexOf` and `substring` can give other results there.
- FileUtil's I/O wrappers, PdfMerger and JsEngine's script evaluation are not part of this model.
