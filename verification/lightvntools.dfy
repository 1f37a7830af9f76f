/**
 * Light.vnTools 1.2.0: the round-trip controller. Unpacking extracts a
 * container and decodes the extracted files unless the container uses ZIP
 * passwords; repacking backs the container up once, encodes a temporary
 * copy of the folder (never the folder itself) when the container is plain,
 * and streams the files into a new container. The command line routes each
 * argument by what it is and by its extension.
 */
module LightvnTools {
  import opened Wrappers
  import opened Keys
  import opened Codec
  import opened Zip
  import opened FileSystem

  /** How the container library reads a container file: its entries, or None when it cannot open it. */
  type ArchiveReader = seq<bv8> -> Option<seq<Entry>>

  /** How the container library writes a container: the streamed entries, and whether the password is set. */
  type ArchiveWriter = (seq<PackedEntry>, bool) -> seq<bv8>

  const ARCHIVE_EXTENSION: string := ".vndat"
  const BACKUP_EXTENSION: string := ".bak"
  const TEMP_SUFFIX: string := "_temp"

  /** The entries of the container stored at `path`, if it exists and the library can read it. */
  function ArchiveAt(files: map<Path, seq<bv8>>, path: Path, read: ArchiveReader): (r: Option<seq<Entry>>) {
    if path in files then read(files[path]) else None
  }

  /** IsPasswordProtectedZip(path) as the file system stands. */
  predicate IsProtected(files: map<Path, seq<bv8>>, path: Path, read: ArchiveReader) {
    var archive := ArchiveAt(files, path, read);
    archive.Some? && AnyCrypted(archive.value)
  }

  /** The files after every file of `targets` has been replaced by its transform. */
  function XorAll(files: map<Path, seq<bv8>>, targets: set<Path>): (r: map<Path, seq<bv8>>)
    ensures r.Keys == files.Keys
  {
    map p | p in files :: if p in targets then Transform(files[p]) else files[p]
  }

  // ---------------------------------------------------------------------
  // XOR(string filePath, string? outputFilePath)

  /** File.OpenWrite then Write(data): the start of an existing file is overwritten, a longer tail stays. */
  function Overwrite(existing: Option<seq<bv8>>, data: seq<bv8>): (r: seq<bv8>) {
    if existing.Some? && |existing.value| > |data| then data + existing.value[|data|..] else data
  }

  /**
   * What XOR(input, output) does as written: it reads `input`, keeps the
   * read stream open, and opens `output` with File.OpenWrite. On the same
   * path the second open is a sharing violation, and in a folder that does
   * not exist it is a DirectoryNotFoundException; both are caught and
   * logged. Otherwise the transform overwrites the start of `output`.
   */
  function XorFileAsWrittenResult(files: map<Path, seq<bv8>>, input: Path, output: Path): (r: map<Path, seq<bv8>>) {
    if input !in files then files
    else if output == input then files
    else if !CanOpenForWrite(files, output) then files
    else files[output := Overwrite(if output in files then Some(files[output]) else None, Transform(files[input]))]
  }

  /** XOR(input, output) as written (see XorFileAsWrittenResult). */
  method XorFileAsWritten(fs: FileSystem, input: Path, output: Path)
    modifies fs
    ensures fs.files == XorFileAsWrittenResult(old(fs.files), input, output)
  {
    if input !in fs.files {
      return;
    }
    var data := fs.files[input];
    var buffer := new bv8[|data|](i requires 0 <= i < |data| => data[i]);
    assert buffer[..] == data;
    buffer := Xor(buffer);
    if output == input || !CanOpenForWrite(fs.files, output) {
      return;
    }
    var existing := if output in fs.files then Some(fs.files[output]) else None;
    fs.files := fs.files[output := Overwrite(existing, buffer[..])];
  }

  /** Decoding a file in place, as unpacking does, leaves it unchanged as written. */
  lemma InPlaceXorIsLost()
    ensures var files := map["a.txt" := [0x00]];
      && XorFileAsWrittenResult(files, "a.txt", "a.txt")["a.txt"] == [0x00]
      && Transform([0x00]) == [0x30]
  {
  }

  /** Encrypting a shortened x.dec over an existing longer x.enc keeps the old tail as written. */
  lemma StaleTailKept()
    ensures var files := map["x.dec" := [0x01], "x.enc" := [0x07, 0x07, 0x07]];
      && XorFileAsWrittenResult(files, "x.dec", "x.enc")["x.enc"] == [0x31, 0x07, 0x07]
      && Transform([0x01]) == [0x31]
  {
    var t := Transform([0x01]);
    assert t == [0x31] by {
      assert t[0] == 0x01 ^ REVERSED_KEY[0];
    }
  }

  /**
   * XOR(input, output) as intended: the input is read and closed, then
   * `output` (the input itself when none is given) is rewritten with the
   * transform, so transforming it again gives back the input. A missing
   * input, or an output in a folder that does not exist, is an error that
   * is logged and changes nothing.
   */
  method XorFile(fs: FileSystem, input: Path, output: Path)
    modifies fs
    ensures input !in old(fs.files) || !CanOpenForWrite(old(fs.files), output) ==> fs.files == old(fs.files)
    ensures input in old(fs.files) && CanOpenForWrite(old(fs.files), output) ==>
      fs.files == old(fs.files)[output := Transform(old(fs.files)[input])]
    ensures input in old(fs.files) && CanOpenForWrite(old(fs.files), output) ==>
      |fs.files[output]| == |old(fs.files)[input]| && Transform(fs.files[output]) == old(fs.files)[input]
  {
    if input !in fs.files || !CanOpenForWrite(fs.files, output) {
      return;
    }
    var data := fs.files[input];
    var buffer := new bv8[|data|](i requires 0 <= i < |data| => data[i]);
    assert buffer[..] == data;
    buffer := Xor(buffer);
    fs.files := fs.files[output := buffer[..]];
    TransformKeepsLength(data);
    TransformInvolutive(data);
  }

  /** Transforming one more file extends XorAll by that file. */
  lemma XorAllAddOne(files: map<Path, seq<bv8>>, done: set<Path>, p: Path)
    requires p in files && p !in done
    ensures XorAll(files, done + {p}) == XorAll(files, done)[p := Transform(files[p])]
  {
  }

  /** The next file of a listing without repeats has not been seen yet. */
  lemma ListedOnce(listing: seq<Path>, i: nat, done: set<Path>)
    requires i < |listing|
    requires forall a, b :: 0 <= a < b < |listing| ==> listing[a] != listing[b]
    requires forall p :: p in done <==> p in listing[..i]
    ensures listing[i] !in done
    ensures forall p :: p in done + {listing[i]} <==> p in listing[..i + 1]
  {
    assert listing[..i + 1] == listing[..i] + [listing[i]];
  }

  /** Run XOR(file) on every file of a listing, in place. */
  method XorEach(fs: FileSystem, listing: seq<Path>)
    requires forall i, j :: 0 <= i < j < |listing| ==> listing[i] != listing[j]
    requires forall i :: 0 <= i < |listing| ==> listing[i] in fs.files
    modifies fs
    ensures fs.files == XorAll(old(fs.files), set p | p in listing)
  {
    ghost var before := fs.files;
    ghost var done: set<Path> := {};
    for i := 0 to |listing|
      invariant forall p :: p in done <==> p in listing[..i]
      invariant fs.files == XorAll(before, done)
    {
      var p := listing[i];
      ListedOnce(listing, i, done);
      XorAllAddOne(before, done, p);
      ExistingFileIsWritable(fs.files, p);
      XorFile(fs, p, p);
      done := done + {p};
    }
    assert done == set p | p in listing;
  }

  // ---------------------------------------------------------------------
  // UnpackVndat

  /** The file an entry is written to: Path.Combine(outputFolder, entry.Name). */
  function EntryPath(outputFolder: Path, e: Entry): (r: Path) {
    Combine(outputFolder, e.name)
  }

  /** The entry is a file whose bytes could be read. */
  predicate Extractable(e: Entry) {
    !e.isDirectory && e.data.Some?
  }

  /** The files after the entries have been extracted in order; an unreadable entry is skipped. */
  function ExtractEntries(files: map<Path, seq<bv8>>, outputFolder: Path, entries: seq<Entry>): (r: map<Path, seq<bv8>>)
    decreases |entries|
  {
    if entries == [] then files
    else
      var before := ExtractEntries(files, outputFolder, entries[..|entries| - 1]);
      var e := entries[|entries| - 1];
      if Extractable(e) then before[EntryPath(outputFolder, e) := e.data.value] else before
  }

  /** The files after unpacking: extracted, then decoded below the output folder unless the container is protected. */
  function Unpacked(files: map<Path, seq<bv8>>, outputFolder: Path, entries: seq<Entry>): (r: map<Path, seq<bv8>>) {
    var extracted := ExtractEntries(files, outputFolder, entries);
    if AnyCrypted(entries) then extracted else XorAll(extracted, FilesUnder(extracted, outputFolder))
  }

  /** An extracted entry holds its bytes unless a later entry goes to the same file. */
  lemma {:induction false} ExtractedEntry(files: map<Path, seq<bv8>>, outputFolder: Path, entries: seq<Entry>, k: nat)
    requires k < |entries| && Extractable(entries[k])
    requires forall j :: k < j < |entries| && Extractable(entries[j]) ==>
      EntryPath(outputFolder, entries[j]) != EntryPath(outputFolder, entries[k])
    ensures var extracted := ExtractEntries(files, outputFolder, entries);
      EntryPath(outputFolder, entries[k]) in extracted &&
      extracted[EntryPath(outputFolder, entries[k])] == entries[k].data.value
    decreases |entries|
  {
    var init := entries[..|entries| - 1];
    if k < |entries| - 1 {
      forall j | k < j < |init| && Extractable(init[j])
        ensures EntryPath(outputFolder, init[j]) != EntryPath(outputFolder, init[k])
      {
        assert init[j] == entries[j];
      }
      ExtractedEntry(files, outputFolder, init, k);
    }
  }

  /** Extraction writes only entry paths: every other file keeps its bytes. */
  lemma {:induction false} ExtractKeepsOthers(files: map<Path, seq<bv8>>, outputFolder: Path, entries: seq<Entry>, p: Path)
    requires p in files
    requires forall j :: 0 <= j < |entries| && Extractable(entries[j]) ==> EntryPath(outputFolder, entries[j]) != p
    ensures var extracted := ExtractEntries(files, outputFolder, entries);
      p in extracted && extracted[p] == files[p]
    decreases |entries|
  {
    if entries != [] {
      var init := entries[..|entries| - 1];
      forall j | 0 <= j < |init| && Extractable(init[j])
        ensures EntryPath(outputFolder, init[j]) != p
      {
        assert init[j] == entries[j];
      }
      ExtractKeepsOthers(files, outputFolder, init, p);
    }
  }

  /**
   * Unpacking decodes an extracted file exactly when the container is
   * plain: the file of entry k (below the output folder, not overwritten
   * by a later entry) holds the transform of the entry's bytes for a plain
   * container and the bytes themselves for a protected one.
   */
  lemma UnpackDecodesIffPlain(files: map<Path, seq<bv8>>, outputFolder: Path, entries: seq<Entry>, k: nat)
    requires k < |entries| && Extractable(entries[k])
    requires Under(outputFolder, EntryPath(outputFolder, entries[k]))
    requires forall j :: k < j < |entries| && Extractable(entries[j]) ==>
      EntryPath(outputFolder, entries[j]) != EntryPath(outputFolder, entries[k])
    ensures var target := EntryPath(outputFolder, entries[k]);
      var unpacked := Unpacked(files, outputFolder, entries);
      target in unpacked &&
      unpacked[target] == if AnyCrypted(entries) then entries[k].data.value else Transform(entries[k].data.value)
  {
    ExtractedEntry(files, outputFolder, entries, k);
  }

  /** Unpacking leaves a file outside the output folder alone unless some entry is written to it. */
  lemma UnpackKeepsOutsideFiles(files: map<Path, seq<bv8>>, outputFolder: Path, entries: seq<Entry>, p: Path)
    requires p in files && !Under(outputFolder, p)
    requires forall j :: 0 <= j < |entries| && Extractable(entries[j]) ==> EntryPath(outputFolder, entries[j]) != p
    ensures var unpacked := Unpacked(files, outputFolder, entries);
      p in unpacked && unpacked[p] == files[p]
  {
    ExtractKeepsOthers(files, outputFolder, entries, p);
  }

  /**
   * UnpackVndat: classify the container, extract every readable file entry
   * (a failing entry is logged and skipped), then decode every file below
   * the output folder unless the container is protected. A container the
   * library cannot open raises an exception nobody catches.
   */
  method UnpackVndat(fs: FileSystem, vndatFile: Path, outputFolder: Path, read: ArchiveReader) returns (outcome: Outcome)
    modifies fs
    ensures var archive := ArchiveAt(old(fs.files), vndatFile, read);
      && (outcome.Fault? <==> archive.None?)
      && fs.files == if archive.None? then old(fs.files) else Unpacked(old(fs.files), outputFolder, archive.value)
  {
    var usePassword := IsPasswordProtectedZip(ArchiveAt(fs.files, vndatFile, read));
    var archive := ArchiveAt(fs.files, vndatFile, read);
    if archive.None? {
      return Fault("cannot open " + vndatFile);
    }
    var entries := archive.value;
    ghost var before := fs.files;
    for i := 0 to |entries|
      invariant fs.files == ExtractEntries(before, outputFolder, entries[..i])
    {
      var e := entries[i];
      assert entries[..i + 1][..i] == entries[..i];
      if !e.isDirectory {
        match e.data
        case Some(bytes) =>
          fs.files := fs.files[Combine(outputFolder, e.name) := bytes];
        case None =>
      }
    }
    assert entries[..|entries|] == entries;
    if !usePassword {
      var files := fs.GetFilesRecursive(outputFolder);
      XorEach(fs, files);
    }
    outcome := Ok;
  }

  // ---------------------------------------------------------------------
  // CopyFolder

  /** Where CopyFolder puts a file of `src`: Path.Combine(dst, its name relative to src). */
  function CopyTarget(q: Path, src: Path, dst: Path): (r: Path)
    requires |src| <= |q|
  {
    Combine(dst, RelativeName(q, src))
  }

  /**
   * `dst` is `src` followed by more of the same name, as `<folder>_temp`
   * is: a tree beside the source tree that never reaches into it.
   */
  predicate BesideTree(dst: Path, src: Path) {
    |src| < |dst| && dst[..|src|] == src && dst[|src|] != SEP
  }

  /** The targets of the files below `src`. */
  ghost function CopyTargets(files: map<Path, seq<bv8>>, src: Path, dst: Path): (r: set<Path>) {
    set q | q in FilesUnder(files, src) :: CopyTarget(q, src, dst)
  }

  /**
   * `after` is `before` with every file of `src` copied to its target below
   * `dst` (File.Copy with overwrite). Each target holds the bytes of a
   * source file that maps to it; when two sources share a target the
   * enumeration order decides which, so only "one of them" is stated.
   */
  ghost predicate Copied(before: map<Path, seq<bv8>>, after: map<Path, seq<bv8>>, src: Path, dst: Path) {
    var targets := CopyTargets(before, src, dst);
    && after.Keys == before.Keys + targets
    && (forall p :: p in before && p !in targets ==> after[p] == before[p])
    && (forall t :: t in targets ==>
          exists q :: q in FilesUnder(before, src) && CopyTarget(q, src, dst) == t && after[t] == before[q])
  }

  /** When no other source file shares its target, a copied file holds exactly its source's bytes. */
  lemma CopiedExactly(before: map<Path, seq<bv8>>, after: map<Path, seq<bv8>>, src: Path, dst: Path, q: Path)
    requires Copied(before, after, src, dst)
    requires q in FilesUnder(before, src)
    requires forall q' :: q' in FilesUnder(before, src) && CopyTarget(q', src, dst) == CopyTarget(q, src, dst) ==> q' == q
    ensures CopyTarget(q, src, dst) in after && after[CopyTarget(q, src, dst)] == before[q]
  {
    assert CopyTarget(q, src, dst) in CopyTargets(before, src, dst);
  }

  /** A copy target never lies in the source tree, so no source file is overwritten while copying. */
  lemma TargetOutsideSource(q: Path, src: Path, dst: Path)
    requires BesideTree(dst, src) && |src| <= |q|
    ensures !Under(src, CopyTarget(q, src, dst))
  {
    RelativeNameShape(q, src);
    CombineKeepsFolder(dst, RelativeName(q, src));
    assert CopyTarget(q, src, dst)[|src|] == dst[|src|];
  }

  /** A listing of the sources whose targets are all recorded covers every target. */
  lemma ListingCoversTargets(listing: seq<Path>, sources: set<Path>, origin: set<Path>, src: Path, dst: Path)
    requires Listing(listing, sources)
    requires forall q :: q in sources ==> Under(src, q)
    requires forall k :: 0 <= k < |listing| ==> |src| <= |listing[k]| && CopyTarget(listing[k], src, dst) in origin
    ensures forall q :: q in sources ==> CopyTarget(q, src, dst) in origin
  {
    forall q | q in sources
      ensures CopyTarget(q, src, dst) in origin
    {
      var k :| 0 <= k < |listing| && listing[k] == q;
    }
  }

  /**
   * The files after File.Copy(q, CopyTarget(q), overwrite) has run for each
   * `q` of `sources` in turn: each copy reads the source as it is by then.
   */
  function CopyAll(files: map<Path, seq<bv8>>, sources: seq<Path>, src: Path, dst: Path): (r: map<Path, seq<bv8>>)
    requires forall k :: 0 <= k < |sources| ==> sources[k] in files && |src| <= |sources[k]|
    ensures files.Keys <= r.Keys
  {
    if |sources| == 0 then files
    else
      var earlier := CopyAll(files, sources[..|sources| - 1], src, dst);
      var q := sources[|sources| - 1];
      earlier[CopyTarget(q, src, dst) := earlier[q]]
  }

  /** The targets CopyAll has written, each with the source that wrote it last. */
  function CopyOrigin(sources: seq<Path>, src: Path, dst: Path): (r: map<Path, Path>)
    requires forall k :: 0 <= k < |sources| ==> |src| <= |sources[k]|
  {
    if |sources| == 0 then map[]
    else
      var q := sources[|sources| - 1];
      CopyOrigin(sources[..|sources| - 1], src, dst)[CopyTarget(q, src, dst) := q]
  }

  /**
   * Part-way through a copy: `now` is `before` plus the targets recorded in
   * `origin`, each holding the bytes of the source file it came from.
   */
  ghost predicate CopyProgress(before: map<Path, seq<bv8>>, now: map<Path, seq<bv8>>, origin: map<Path, Path>, src: Path, dst: Path) {
    && now.Keys == before.Keys + origin.Keys
    && (forall p :: p in before && p !in origin ==> now[p] == before[p])
    && (forall t :: t in origin ==>
          origin[t] in FilesUnder(before, src) && CopyTarget(origin[t], src, dst) == t && now[t] == before[origin[t]])
  }

  /** Copying one more source file keeps the copy in progress; the source still holds its original bytes. */
  lemma CopyStep(before: map<Path, seq<bv8>>, now: map<Path, seq<bv8>>, origin: map<Path, Path>, src: Path, dst: Path, source: Path)
    requires BesideTree(dst, src) && CopyProgress(before, now, origin, src, dst)
    requires source in FilesUnder(before, src)
    ensures source in now && now[source] == before[source]
    ensures CopyProgress(before, now[CopyTarget(source, src, dst) := now[source]],
                         origin[CopyTarget(source, src, dst) := source], src, dst)
  {
    assert source !in origin by {
      if source in origin {
        TargetOutsideSource(origin[source], src, dst);
      }
    }
    var t := CopyTarget(source, src, dst);
    var now', origin' := now[t := now[source]], origin[t := source];
    assert now'.Keys == before.Keys + origin'.Keys;
    forall u | u in origin'
      ensures origin'[u] in FilesUnder(before, src) && CopyTarget(origin'[u], src, dst) == u && now'[u] == before[origin'[u]]
    {
      if u != t {
        assert origin'[u] == origin[u] && now'[u] == now[u];
      }
    }
  }

  /** Every file of `sources` has its target recorded in `origin`. */
  ghost predicate Covered(sources: seq<Path>, origin: map<Path, Path>, src: Path, dst: Path) {
    forall k :: 0 <= k < |sources| ==> |src| <= |sources[k]| && CopyTarget(sources[k], src, dst) in origin
  }

  /** Copying the files of `sources` one by one keeps every source intact and records every target. */
  lemma {:induction false} CopyAllProgress(before: map<Path, seq<bv8>>, sources: seq<Path>, src: Path, dst: Path)
    requires BesideTree(dst, src)
    requires forall k :: 0 <= k < |sources| ==> sources[k] in before && |src| <= |sources[k]| && Under(src, sources[k])
    ensures CopyProgress(before, CopyAll(before, sources, src, dst), CopyOrigin(sources, src, dst), src, dst)
  {
    if |sources| > 0 {
      var rest := sources[..|sources| - 1];
      var q := sources[|sources| - 1];
      CopyAllProgress(before, rest, src, dst);
      CopyStep(before, CopyAll(before, rest, src, dst), CopyOrigin(rest, src, dst), src, dst, q);
    }
  }

  /** Every file copied has its target recorded. */
  lemma {:induction false} CopyOriginCovers(sources: seq<Path>, src: Path, dst: Path)
    requires forall k :: 0 <= k < |sources| ==> |src| <= |sources[k]|
    ensures Covered(sources, CopyOrigin(sources, src, dst), src, dst)
  {
    if |sources| > 0 {
      var rest := sources[..|sources| - 1];
      var q := sources[|sources| - 1];
      CopyOriginCovers(rest, src, dst);
      var earlier := CopyOrigin(rest, src, dst);
      var origin := earlier[CopyTarget(q, src, dst) := q];
      assert origin == CopyOrigin(sources, src, dst);
      assert earlier.Keys <= origin.Keys;
      forall k | 0 <= k < |sources|
        ensures CopyTarget(sources[k], src, dst) in origin
      {
        if k < |rest| {
          assert sources[k] == rest[k];
          assert CopyTarget(rest[k], src, dst) in earlier;
        } else {
          assert sources[k] == q;
        }
      }
    }
  }

  /** Copying the whole listing of `src` is the complete copy. */
  lemma CopyAllCopied(before: map<Path, seq<bv8>>, listing: seq<Path>, src: Path, dst: Path)
    requires BesideTree(dst, src)
    requires Listing(listing, FilesUnder(before, src))
    ensures forall k :: 0 <= k < |listing| ==> listing[k] in before && |src| <= |listing[k]|
    ensures Copied(before, CopyAll(before, listing, src, dst), src, dst)
  {
    assert forall k :: 0 <= k < |listing| ==> listing[k] in FilesUnder(before, src);
    CopyAllProgress(before, listing, src, dst);
    CopyOriginCovers(listing, src, dst);
    var origin := CopyOrigin(listing, src, dst);
    ListingCoversTargets(listing, FilesUnder(before, src), origin.Keys, src, dst);
    assert origin.Keys == CopyTargets(before, src, dst);
  }

  /**
   * CopyFolder(src, dst): copy every file below `src` to the same relative
   * place below `dst`, overwriting what is there.
   */
  method CopyFolder(fs: FileSystem, src: Path, dst: Path)
    requires BesideTree(dst, src)
    modifies fs
    ensures Copied(old(fs.files), fs.files, src, dst)
  {
    var listing := fs.GetFilesRecursive(src);
    ghost var before := fs.files;
    assert forall k :: 0 <= k < |listing| ==> listing[k] in before && |src| <= |listing[k]|;
    for i := 0 to |listing|
      invariant fs.files == CopyAll(before, listing[..i], src, dst)
    {
      var source := listing[i];
      assert listing[..i + 1][..i] == listing[..i];
      fs.files := fs.files[CopyTarget(source, src, dst) := fs.files[source]];
    }
    assert listing[..|listing|] == listing;
    CopyAllCopied(before, listing, src, dst);
  }

  // ---------------------------------------------------------------------
  // RepackVndat

  /** The container a folder is packed into: `<folder name>.vndat`, in the working directory. */
  function ArchiveName(folder: Path): (r: Path) {
    FileName(folder) + ARCHIVE_EXTENSION
  }

  /** The backup of a container: `<container>.bak`. */
  function BackupName(archive: Path): (r: Path) {
    archive + BACKUP_EXTENSION
  }

  /** The scratch copy of a folder: `<folder>_temp`. */
  function TempFolder(folder: Path): (r: Path) {
    folder + TEMP_SUFFIX
  }

  /** The files after "copy the container to its backup unless the backup exists". */
  function WithBackup(files: map<Path, seq<bv8>>, archive: Path): (r: map<Path, seq<bv8>>)
    requires BackupName(archive) in files || archive in files
  {
    var backup := BackupName(archive);
    if backup in files then files else files[backup := files[archive]]
  }

  /**
   * The backup is taken once: after the container has been rewritten, a
   * second backup step changes nothing, and the backup still holds the
   * container as it was before the first.
   */
  lemma BackupTakenOnce(files: map<Path, seq<bv8>>, archive: Path, rewritten: seq<bv8>)
    requires BackupName(archive) in files || archive in files
    requires archive != BackupName(archive)
    ensures var once := WithBackup(files, archive)[archive := rewritten];
      && WithBackup(once, archive) == once
      && once[BackupName(archive)] == if BackupName(archive) in files then files[BackupName(archive)] else files[archive]
  {
  }

  /** The entry streamed for file `p`: its name relative to `root` and its bytes. */
  function PackedFrom(files: map<Path, seq<bv8>>, p: Path, root: Path): (r: PackedEntry)
    requires p in files && |root| <= |p|
  {
    PackedEntry(RelativeName(p, root), files[p])
  }

  /** `packed` streams every file below `root` once, in some order, named relative to `root`. */
  ghost predicate Packs(packed: seq<PackedEntry>, root: Path, files: map<Path, seq<bv8>>) {
    var listed := FilesUnder(files, root);
    && |packed| == |listed|
    && (forall i :: 0 <= i < |packed| ==> exists p :: p in listed && packed[i] == PackedFrom(files, p, root))
    && (forall p :: p in listed ==> PackedFrom(files, p, root) in packed)
  }

  /** Whether entries pack a folder depends only on the files below it. */
  lemma PacksSameFiles(packed: seq<PackedEntry>, root: Path, files: map<Path, seq<bv8>>, others: map<Path, seq<bv8>>)
    requires Packs(packed, root, files)
    requires FilesUnder(files, root) == FilesUnder(others, root)
    requires forall p :: p in files && Under(root, p) ==> p in others && others[p] == files[p]
    ensures Packs(packed, root, others)
  {
    var listed := FilesUnder(files, root);
    forall i | 0 <= i < |packed|
      ensures exists p :: p in listed && packed[i] == PackedFrom(others, p, root)
    {
      var p :| p in listed && packed[i] == PackedFrom(files, p, root);
      assert PackedFrom(others, p, root) == PackedFrom(files, p, root);
    }
    forall p | p in listed
      ensures PackedFrom(others, p, root) in packed
    {
      assert PackedFrom(others, p, root) == PackedFrom(files, p, root);
    }
  }

  /**
   * The entry loop of RepackVndat: one entry per listed file, named by the
   * file's path with the root cut off and leading separators trimmed, so
   * that no name starts with a separator.
   */
  method PackFiles(files: map<Path, seq<bv8>>, listing: seq<Path>, root: Path) returns (packed: seq<PackedEntry>)
    requires forall i :: 0 <= i < |listing| ==> listing[i] in files && Under(root, listing[i])
    ensures |packed| == |listing|
    ensures forall i :: 0 <= i < |listing| ==> Under(root, listing[i]) && packed[i] == PackedFrom(files, listing[i], root)
    ensures forall i :: 0 <= i < |packed| ==> packed[i].name == [] || packed[i].name[0] != SEP
  {
    packed := [];
    for i := 0 to |listing|
      invariant |packed| == i
      invariant forall k :: 0 <= k < i ==> packed[k] == PackedFrom(files, listing[k], root)
    {
      var filePath := listing[i];
      var entryName := TrimStart(filePath[|root|..], SEP);
      packed := packed + [PackedEntry(entryName, files[filePath])];
    }
    forall i | 0 <= i < |packed|
      ensures packed[i].name == [] || packed[i].name[0] != SEP
    {
      RelativeNameShape(listing[i], root);
    }
  }

  /** Each file of a complete listing is packed. */
  lemma ListedFilesArePacked(listing: seq<Path>, packed: seq<PackedEntry>, root: Path, files: map<Path, seq<bv8>>)
    requires forall p :: p in listing <==> p in FilesUnder(files, root)
    requires |packed| == |listing|
    requires forall i :: 0 <= i < |listing| ==> listing[i] in files && Under(root, listing[i])
    requires forall i :: 0 <= i < |listing| ==> packed[i] == PackedFrom(files, listing[i], root)
    ensures forall p :: p in FilesUnder(files, root) ==> PackedFrom(files, p, root) in packed
  {
    forall p | p in FilesUnder(files, root)
      ensures PackedFrom(files, p, root) in packed
    {
      var k :| 0 <= k < |listing| && listing[k] == p;
      assert packed[k] == PackedFrom(files, p, root);
    }
  }

  /** Packing a complete listing of a folder packs the folder. */
  lemma ListingPacks(listing: seq<Path>, packed: seq<PackedEntry>, root: Path, files: map<Path, seq<bv8>>)
    requires Listing(listing, FilesUnder(files, root))
    requires |packed| == |listing|
    requires forall i :: 0 <= i < |listing| ==> listing[i] in files && Under(root, listing[i])
    requires forall i :: 0 <= i < |listing| ==> packed[i] == PackedFrom(files, listing[i], root)
    ensures Packs(packed, root, files)
  {
    var listed := FilesUnder(files, root);
    forall i | 0 <= i < |packed|
      ensures exists p :: p in listed && packed[i] == PackedFrom(files, p, root)
    {
      var p := listing[i];
      assert p in listed && packed[i] == PackedFrom(files, p, root);
    }
    ListedFilesArePacked(listing, packed, root, files);
  }

  /** The container, its backup and the scratch copy lie outside the source folder. */
  lemma RepackPathsOutsideSource(folder: Path, p: Path)
    ensures !Under(folder, ArchiveName(folder)) && !Under(folder, BackupName(ArchiveName(folder)))
    ensures !Under(TempFolder(folder), ArchiveName(folder)) && !Under(TempFolder(folder), BackupName(ArchiveName(folder)))
    ensures ArchiveName(folder) != BackupName(ArchiveName(folder))
    ensures BesideTree(TempFolder(folder), folder)
    ensures Under(TempFolder(folder), p) ==> !Under(folder, p)
  {
    var archive := ArchiveName(folder);
    FileNameHasNoSeparator(folder);
    assert forall i :: 0 <= i < |archive| ==> archive[i] != SEP by {
      forall i | 0 <= i < |archive|
        ensures archive[i] != SEP
      {
        if i >= |FileName(folder)| {
          assert archive[i] == ARCHIVE_EXTENSION[i - |FileName(folder)|];
        }
      }
    }
    var backup := BackupName(archive);
    assert forall i :: 0 <= i < |backup| ==> backup[i] != SEP by {
      forall i | 0 <= i < |backup|
        ensures backup[i] != SEP
      {
        if i >= |archive| {
          assert backup[i] == BACKUP_EXTENSION[i - |archive|];
        }
      }
    }
    NoSeparatorNotUnder(folder, archive);
    NoSeparatorNotUnder(folder, backup);
    NoSeparatorNotUnder(TempFolder(folder), archive);
    NoSeparatorNotUnder(TempFolder(folder), backup);
    assert |backup| != |archive|;
    if Under(TempFolder(folder), p) {
      assert p[|folder|] == TempFolder(folder)[|folder|] == '_';
    }
  }

  /** Copying to the scratch folder leaves the files of the source folder as they are. */
  lemma CopiedKeepsSource(before: map<Path, seq<bv8>>, after: map<Path, seq<bv8>>, folder: Path, p: Path)
    requires Copied(before, after, folder, TempFolder(folder))
    requires Under(folder, p)
    ensures p in after <==> p in before
    ensures p in before ==> after[p] == before[p]
  {
    RepackPathsOutsideSource(folder, p);
    if p in CopyTargets(before, folder, TempFolder(folder)) {
      var q :| q in FilesUnder(before, folder) && CopyTarget(q, folder, TempFolder(folder)) == p;
      TargetOutsideSource(q, folder, TempFolder(folder));
    }
  }

  /** The state after the plain branch: copy to the scratch folder, encode the copy, stream it, delete it. */
  ghost predicate PlainRepack(prepared: map<Path, seq<bv8>>, copied: map<Path, seq<bv8>>, after: map<Path, seq<bv8>>,
                              folder: Path, packed: seq<PackedEntry>, write: ArchiveWriter)
  {
    var temp := TempFolder(folder);
    var encoded := XorAll(copied, FilesUnder(copied, temp));
    && Copied(prepared, copied, folder, temp)
    && Packs(packed, temp, encoded)
    && after == encoded[ArchiveName(folder) := write(packed, false)] - FilesUnder(encoded, temp)
  }

  /** Copy, encode, stream, then delete the scratch folder: the plain repack. */
  lemma PlainRepackHolds(prepared: map<Path, seq<bv8>>, copied: map<Path, seq<bv8>>, streamed: map<Path, seq<bv8>>,
                         folder: Path, packed: seq<PackedEntry>, write: ArchiveWriter)
    requires Copied(prepared, copied, folder, TempFolder(folder))
    requires var encoded := XorAll(copied, FilesUnder(copied, TempFolder(folder)));
      Packs(packed, TempFolder(folder), encoded) && streamed == encoded[ArchiveName(folder) := write(packed, false)]
    ensures PlainRepack(prepared, copied, streamed - FilesUnder(streamed, TempFolder(folder)), folder, packed, write)
  {
    var encoded := XorAll(copied, FilesUnder(copied, TempFolder(folder)));
    RepackPathsOutsideSource(folder, "");
    assert FilesUnder(streamed, TempFolder(folder)) == FilesUnder(encoded, TempFolder(folder));
  }

  /** A copy into the scratch folder lands on the folder itself or below it. */
  lemma ScratchTargetShape(q: Path, folder: Path)
    requires |folder| <= |q|
    ensures var t := CopyTarget(q, folder, TempFolder(folder));
      t == TempFolder(folder) || Under(TempFolder(folder), t)
  {
    RelativeNameShape(q, folder);
    var temp := TempFolder(folder);
    assert temp[|temp| - 1] == 'p';
  }

  /** The plain branch leaves the backup as it was. */
  lemma PlainRepackKeepsBackup(prepared: map<Path, seq<bv8>>, copied: map<Path, seq<bv8>>, after: map<Path, seq<bv8>>,
                               folder: Path, packed: seq<PackedEntry>, write: ArchiveWriter)
    requires PlainRepack(prepared, copied, after, folder, packed, write)
    requires BackupName(ArchiveName(folder)) in prepared
    ensures BackupName(ArchiveName(folder)) in after
    ensures after[BackupName(ArchiveName(folder))] == prepared[BackupName(ArchiveName(folder))]
  {
    var temp := TempFolder(folder);
    var backup := BackupName(ArchiveName(folder));
    RepackPathsOutsideSource(folder, "");
    assert backup[|backup| - 1] == 'k';
    if backup in CopyTargets(prepared, folder, temp) {
      var q :| q in FilesUnder(prepared, folder) && CopyTarget(q, folder, temp) == backup;
      ScratchTargetShape(q, folder);
      assert false;
    }
    assert copied[backup] == prepared[backup];
  }

  /** `p` is a file of `folder` whose path has a single separator after the folder. */
  predicate SimplyNamed(folder: Path, p: Path) {
    Under(folder, p) && |p| > |folder| + 1 && p[|folder| + 1] != SEP
  }

  /** A simply named file of `folder` is copied to `<folder>_temp\<its relative name>`, and that name comes back out. */
  lemma ScratchTargetOfSimplyNamed(folder: Path, p: Path)
    requires SimplyNamed(folder, p)
    ensures var t := CopyTarget(p, folder, TempFolder(folder));
      Under(TempFolder(folder), t) && RelativeName(t, TempFolder(folder)) == RelativeName(p, folder)
  {
    var temp := TempFolder(folder);
    assert p == folder + [SEP] + p[|folder| + 1..];
    RelativeNameOfChild(folder, p[|folder| + 1..]);
    assert temp[|temp| - 1] == 'p';
    CombineChild(temp, RelativeName(p, folder));
  }

  /**
   * A plain repack streams every file of the source folder, encoded, under
   * its name relative to the folder (when no two files' names differ only
   * by doubled separators, so that no copy overwrites another).
   */
  lemma PlainRepackStreamsEncodedSource(prepared: map<Path, seq<bv8>>, copied: map<Path, seq<bv8>>, after: map<Path, seq<bv8>>,
                                        folder: Path, packed: seq<PackedEntry>, write: ArchiveWriter, p: Path)
    requires PlainRepack(prepared, copied, after, folder, packed, write)
    requires forall q :: q in prepared && Under(folder, q) ==> SimplyNamed(folder, q)
    requires p in prepared && Under(folder, p)
    ensures PackedEntry(RelativeName(p, folder), Transform(prepared[p])) in packed
  {
    var temp := TempFolder(folder);
    var t := CopyTarget(p, folder, temp);
    ScratchTargetOfSimplyNamed(folder, p);
    forall q' | q' in FilesUnder(prepared, folder) && CopyTarget(q', folder, temp) == t
      ensures q' == p
    {
      ScratchTargetOfSimplyNamed(folder, q');
      RelativeNameInjective(folder, p, q');
    }
    CopiedExactly(prepared, copied, folder, temp, p);
    var encoded := XorAll(copied, FilesUnder(copied, temp));
    assert encoded[t] == Transform(prepared[p]);
    assert t in FilesUnder(encoded, temp);
  }

  /**
   * Conversely, when no scratch folder is left over from before, every entry
   * of a plain repack is a file of the source folder, encoded, under its
   * relative name.
   */
  lemma PlainRepackStreamsOnlySource(prepared: map<Path, seq<bv8>>, copied: map<Path, seq<bv8>>, after: map<Path, seq<bv8>>,
                                     folder: Path, packed: seq<PackedEntry>, write: ArchiveWriter, i: nat)
    requires PlainRepack(prepared, copied, after, folder, packed, write)
    requires forall q :: q in prepared && Under(folder, q) ==> SimplyNamed(folder, q)
    requires FilesUnder(prepared, TempFolder(folder)) == {}
    requires i < |packed|
    ensures exists q :: (q in prepared && Under(folder, q) &&
      packed[i] == PackedEntry(RelativeName(q, folder), Transform(prepared[q])))
  {
    var temp := TempFolder(folder);
    var encoded := XorAll(copied, FilesUnder(copied, temp));
    var t :| t in FilesUnder(encoded, temp) && packed[i] == PackedFrom(encoded, t, temp);
    assert t !in FilesUnder(prepared, temp);
    var q :| q in FilesUnder(prepared, folder) && CopyTarget(q, folder, temp) == t && copied[t] == prepared[q];
    ScratchTargetOfSimplyNamed(folder, q);
    assert encoded[t] == Transform(prepared[q]);
  }

  /** The backup step: copy the container to `<container>.bak` unless that exists; File.Copy throws when neither exists. */
  method BackupOnce(fs: FileSystem, outputFile: Path) returns (ok: bool)
    modifies fs
    ensures ok <==> BackupName(outputFile) in old(fs.files) || outputFile in old(fs.files)
    ensures ok ==> fs.files == WithBackup(old(fs.files), outputFile)
    ensures !ok ==> fs.files == old(fs.files)
  {
    var backupFile := BackupName(outputFile);
    if backupFile !in fs.files {
      if outputFile !in fs.files {
        return false;
      }
      fs.files := fs.files[backupFile := fs.files[outputFile]];
    }
    return true;
  }

  /** The plain branch before streaming: copy the folder to `<folder>_temp` and encode every file of the copy. */
  method EncodeScratchCopy(fs: FileSystem, sourceFolder: Path) returns (listing: seq<Path>, ghost copied: map<Path, seq<bv8>>)
    modifies fs
    ensures Copied(old(fs.files), copied, sourceFolder, TempFolder(sourceFolder))
    ensures Listing(listing, FilesUnder(copied, TempFolder(sourceFolder)))
    ensures forall i :: 0 <= i < |listing| ==> listing[i] in fs.files && Under(TempFolder(sourceFolder), listing[i])
    ensures fs.files == XorAll(copied, FilesUnder(copied, TempFolder(sourceFolder)))
  {
    var tempFolder := TempFolder(sourceFolder);
    RepackPathsOutsideSource(sourceFolder, "");
    CopyFolder(fs, sourceFolder, tempFolder);
    copied := fs.files;
    listing := fs.GetFilesRecursive(tempFolder);
    XorEach(fs, listing);
    assert (set p | p in listing) == FilesUnder(copied, tempFolder);
  }

  /** What RepackVndat leaves of the source folder: every file as it was. */
  lemma RepackKeepsSource(original: map<Path, seq<bv8>>, prepared: map<Path, seq<bv8>>, after: map<Path, seq<bv8>>,
                          folder: Path, usePassword: bool, packed: seq<PackedEntry>, write: ArchiveWriter, copied: map<Path, seq<bv8>>)
    requires BackupName(ArchiveName(folder)) in original || ArchiveName(folder) in original
    requires prepared == WithBackup(original, ArchiveName(folder))[ArchiveName(folder) := []]
    requires usePassword ==> after == prepared[ArchiveName(folder) := write(packed, true)]
    requires !usePassword ==> PlainRepack(prepared, copied, after, folder, packed, write)
    ensures forall p :: Under(folder, p) ==>
      (p in after <==> p in original) && (p in after ==> after[p] == original[p])
  {
    forall p | Under(folder, p)
      ensures (p in after <==> p in original) && (p in after ==> after[p] == original[p])
    {
      RepackPathsOutsideSource(folder, p);
      if !usePassword {
        CopiedKeepsSource(prepared, copied, folder, p);
      }
    }
  }

  /** Recreate the container and stream every listed file of `root` into it. */
  method StreamFolder(fs: FileSystem, archive: Path, listing: seq<Path>, root: Path, usePassword: bool, write: ArchiveWriter)
    returns (ghost packed: seq<PackedEntry>)
    requires Listing(listing, FilesUnder(fs.files, root))
    modifies fs
    ensures Packs(packed, root, old(fs.files))
    ensures fs.files == old(fs.files)[archive := write(packed, usePassword)]
  {
    assert forall i :: 0 <= i < |listing| ==> listing[i] in fs.files && Under(root, listing[i]) by {
      forall i | 0 <= i < |listing|
        ensures listing[i] in fs.files && Under(root, listing[i])
      {
        assert listing[i] in FilesUnder(fs.files, root);
      }
    }
    var entries := PackFiles(fs.files, listing, root);
    ListingPacks(listing, entries, root, fs.files);
    packed := entries;
    fs.files := fs.files[archive := write(entries, usePassword)];
  }

  /**
   * RepackVndat(sourceFolder): back the container up unless a backup
   * exists (File.Copy throws when neither exists), classify it by its
   * backup, recreate it, and stream the folder's files into it: with the
   * password and unchanged for a protected container; from an encoded
   * scratch copy, deleted afterwards, for a plain one. The source folder is
   * never changed. `packed` is the entry list that was streamed.
   */
  method RepackVndat(fs: FileSystem, sourceFolder: Path, read: ArchiveReader, write: ArchiveWriter)
    returns (outcome: Outcome, ghost packed: seq<PackedEntry>)
    modifies fs
    ensures var archive := ArchiveName(sourceFolder);
      outcome.Fault? <==> BackupName(archive) !in old(fs.files) && archive !in old(fs.files)
    ensures outcome.Fault? ==> fs.files == old(fs.files)
    ensures outcome.Ok? ==>
      var archive := ArchiveName(sourceFolder);
      var backup := BackupName(archive);
      backup in fs.files &&
      fs.files[backup] == if backup in old(fs.files) then old(fs.files)[backup] else old(fs.files)[archive]
    ensures outcome.Ok? ==> forall p :: Under(sourceFolder, p) ==>
      (p in fs.files <==> p in old(fs.files)) && (p in fs.files ==> fs.files[p] == old(fs.files)[p])
    ensures outcome.Ok? ==>
      var archive := ArchiveName(sourceFolder);
      var prepared := WithBackup(old(fs.files), archive)[archive := []];
      if IsProtected(prepared, BackupName(archive), read) then
        Packs(packed, sourceFolder, prepared) && fs.files == prepared[archive := write(packed, true)]
      else
        exists copied :: PlainRepack(prepared, copied, fs.files, sourceFolder, packed, write)
  {
    var outputFile := ArchiveName(sourceFolder);
    var files := fs.GetFilesRecursive(sourceFolder);
    var tempFolder := TempFolder(sourceFolder);
    RepackPathsOutsideSource(sourceFolder, "");
    ghost var original := fs.files;

    var backedUp := BackupOnce(fs, outputFile);
    if !backedUp {
      return Fault("cannot find " + outputFile), [];
    }
    var backupFile := BackupName(outputFile);
    var usePassword := IsPasswordProtectedZip(ArchiveAt(fs.files, backupFile, read));
    fs.files := fs.files[outputFile := []];
    ghost var prepared := fs.files;
    assert usePassword == IsProtected(prepared, backupFile, read);

    ghost var copied := prepared;
    if usePassword {
      assert FilesUnder(prepared, sourceFolder) == FilesUnder(original, sourceFolder);
      packed := StreamFolder(fs, outputFile, files, sourceFolder, true, write);
    } else {
      files, copied := EncodeScratchCopy(fs, sourceFolder);
      packed := StreamFolder(fs, outputFile, files, tempFolder, false, write);
      ghost var streamed := fs.files;
      fs.files := fs.files - FilesUnder(fs.files, tempFolder);
      PlainRepackHolds(prepared, copied, streamed, sourceFolder, packed, write);
      PlainRepackKeepsBackup(prepared, copied, fs.files, sourceFolder, packed, write);
    }
    outcome := Ok;
    RepackKeepsSource(original, prepared, fs.files, sourceFolder, usePassword, packed, write, copied);
  }

  /** Repacking a plain folder that was unpacked from a plain container streams each extracted file's original entry bytes. */
  lemma RepackUndoesUnpack(prepared: map<Path, seq<bv8>>, copied: map<Path, seq<bv8>>, after: map<Path, seq<bv8>>,
                           folder: Path, packed: seq<PackedEntry>, write: ArchiveWriter, p: Path, original: seq<bv8>)
    requires PlainRepack(prepared, copied, after, folder, packed, write)
    requires forall q :: q in prepared && Under(folder, q) ==> SimplyNamed(folder, q)
    requires p in prepared && Under(folder, p)
    requires prepared[p] == Transform(original)
    ensures PackedEntry(RelativeName(p, folder), original) in packed
  {
    PlainRepackStreamsEncodedSource(prepared, copied, after, folder, packed, write, p);
    TransformInvolutive(original);
  }

  /** Transforming the same files twice gives them back. */
  lemma XorAllTwice(files: map<Path, seq<bv8>>, targets: set<Path>)
    ensures XorAll(XorAll(files, targets), targets) == files
  {
    forall p | p in files && p in targets
      ensures Transform(Transform(files[p])) == files[p]
    {
      TransformInvolutive(files[p]);
    }
  }

  // ---------------------------------------------------------------------
  // Main

  /** What Main does with an argument that is an existing file. */
  datatype FileRoute = UnpackInto(folder: Path) | DecryptTo(output: Path) | EncryptTo(output: Path) | Unsupported

  /**
   * A container is unpacked into the folder named after it (in the working
   * directory); otherwise the extension decides: one containing "mcdat" is
   * decrypted to `<file>.dec`, one containing "dec" is encrypted to the
   * path with every "dec" replaced by "enc".
   */
  function RouteFile(arg: Path, isVndat: bool): (r: FileRoute) {
    if isVndat then UnpackInto(FileNameWithoutExtension(arg))
    else if Contains(Extension(arg), "mcdat") then DecryptTo(arg + ".dec")
    else if Contains(Extension(arg), "dec") then EncryptTo(Replace(arg, "dec", "enc"))
    else Unsupported
  }

  /** After a folder is repacked, each of its files is decrypted or encrypted by its whole path (not only its extension). */
  function RouteFolderFile(path: Path): (r: Option<Path>) {
    if Contains(path, "mcdat") then Some(path + ".dec")
    else if Contains(path, "dec") then Some(Replace(path, "dec", "enc"))
    else None
  }

  /**
   * A `.mcdat` file is decrypted to `.mcdat.dec`, and that file is routed
   * to encryption into `.mcdat.enc`, so that the pair round-trips (when no
   * "dec" occurs earlier in the path).
   */
  lemma DecryptedFileRoutesBack(arg: Path)
    requires Contains(Extension(arg), "mcdat") && !Contains(arg, "dec")
    ensures RouteFile(arg, false) == DecryptTo(arg + ".dec")
    ensures RouteFile(arg + ".dec", false) == EncryptTo(arg + ".enc")
  {
    ExtensionOfDecSuffix(arg);
    assert OccursAt(".dec", "dec", 1);
    ReplaceDecSuffix(arg);
  }

  /** A file named `<p>.dec` that is not a container is routed to encryption. */
  lemma DecFileIsEncrypted(p: Path)
    ensures RouteFile(p + ".dec", false) == EncryptTo(Replace(p + ".dec", "dec", "enc"))
  {
    ExtensionOfDecSuffix(p);
    assert !Contains(".dec", "mcdat");
    assert OccursAt(".dec", "dec", 1);
  }

  /**
   * Encryption replaces every "dec" of the path, folder names included:
   * `dec\a.dec` is encrypted to `enc\a.enc`.
   */
  lemma EncryptRenamesFolders()
    ensures Replace("dec\\a.dec", "dec", "enc") == "enc\\a.enc"
  {
    var s := "dec\\a.dec";
    assert s[..3] == "dec";
    assert s[3..] == "\\a.dec";
    ReplaceDecSuffix("\\a");
    assert "\\a" + ".dec" == s[3..];
    assert !Contains("\\a", "dec");
  }

  /**
   * The renamed folder of an encryption is not created: with only
   * `dec\a.dec` on disk, the output `enc\a.enc` cannot be opened, so
   * encrypting that file writes nothing.
   */
  lemma EncryptIntoRenamedFolderIsLost()
    ensures !CanOpenForWrite(map["dec\\a.dec" := [0x01]], "enc\\a.enc")
  {
    var files: map<Path, seq<bv8>> := map["dec\\a.dec" := [0x01]];
    var out := "enc\\a.enc";
    LastIndexOfAppend("enc", "\\a.enc", SEP);
    LastIndexOfAppend("\\", "a.enc", SEP);
    assert out == "enc" + "\\a.enc" && "\\a.enc" == "\\" + "a.enc";
    assert LastIndexOf(out, SEP) == 3;
    assert out[..3] == "enc";
    forall q | q in files
      ensures !Under("enc", q)
    {
      assert q[..3] == "dec";
    }
  }

  /** How one argument ends: on to the next, `break` out of the loop, or an exception nobody catches. */
  datatype Step = Next | Break | Throw

  /** The file branch of Main for an existing file `arg`. */
  method HandleFile(fs: FileSystem, arg: Path, read: ArchiveReader) returns (step: Step)
    requires arg in fs.files
    modifies fs
    ensures match RouteFile(arg, HasPkzipSignature(old(fs.files)[arg]))
      case UnpackInto(folder) =>
        var archive := ArchiveAt(old(fs.files), arg, read);
        && (step == Throw <==> archive.None?) && (step != Break)
        && fs.files == if archive.None? then old(fs.files) else Unpacked(old(fs.files), folder, archive.value)
      case DecryptTo(output) => step == Next && fs.files == old(fs.files)[output := Transform(old(fs.files)[arg])]
      case EncryptTo(output) =>
        && step == Next
        && fs.files == if CanOpenForWrite(old(fs.files), output) then old(fs.files)[output := Transform(old(fs.files)[arg])] else old(fs.files)
      case Unsupported => step == Break && fs.files == old(fs.files)
  {
    var isVndat := IsVndat(Some(fs.files[arg]));
    if isVndat {
      var outcome := UnpackVndat(fs, arg, FileNameWithoutExtension(arg), read);
      step := if outcome.Fault? then Throw else Next;
    } else if Contains(Extension(arg), "mcdat") {
      SiblingIsWritable(fs.files, arg, ".dec");
      XorFile(fs, arg, arg + ".dec");
      step := Next;
    } else if Contains(Extension(arg), "dec") {
      XorFile(fs, arg, Replace(arg, "dec", "enc"));
      step := Next;
    } else {
      step := Break;
    }
  }

  /**
   * The files after the folder's listed files have been routed in order.
   * An output whose folder does not exist is not written.
   */
  function FolderPass(files: map<Path, seq<bv8>>, listing: seq<Path>): (r: map<Path, seq<bv8>>)
    ensures files.Keys <= r.Keys
    decreases |listing|
  {
    if listing == [] then files
    else
      var before := FolderPass(files, listing[..|listing| - 1]);
      var p := listing[|listing| - 1];
      match RouteFolderFile(p)
      case None => before
      case Some(output) =>
        if p in before && CanOpenForWrite(before, output) then before[output := Transform(before[p])] else before
  }

  /** The pass only writes outputs of listed files: every other file keeps its bytes. */
  lemma {:induction false} FolderPassKeepsOthers(files: map<Path, seq<bv8>>, listing: seq<Path>, p: Path)
    requires p in files
    requires forall k :: 0 <= k < |listing| ==> RouteFolderFile(listing[k]) != Some(p)
    ensures var after := FolderPass(files, listing); p in after && after[p] == files[p]
    decreases |listing|
  {
    if listing != [] {
      var init := listing[..|listing| - 1];
      assert forall k :: 0 <= k < |init| ==> init[k] == listing[k];
      FolderPassKeepsOthers(files, init, p);
    }
  }

  /**
   * A listed file whose output lies in an existing folder, whose output no
   * other listed file writes, and whose own bytes no other listed file
   * overwrites, ends up transformed at its output.
   */
  lemma {:induction false} FolderPassConverts(files: map<Path, seq<bv8>>, listing: seq<Path>, k: nat, output: Path)
    requires k < |listing| && listing[k] in files
    requires RouteFolderFile(listing[k]) == Some(output) && CanOpenForWrite(files, output)
    requires forall j :: 0 <= j < |listing| && j != k ==>
      RouteFolderFile(listing[j]) != Some(output) && RouteFolderFile(listing[j]) != Some(listing[k])
    ensures var after := FolderPass(files, listing); output in after && after[output] == Transform(files[listing[k]])
    decreases |listing|
  {
    var init := listing[..|listing| - 1];
    assert forall j :: 0 <= j < |init| ==> init[j] == listing[j];
    if k == |listing| - 1 {
      FolderPassKeepsOthers(files, init, listing[k]);
      WritableStaysWritable(files, FolderPass(files, init), output);
    } else {
      FolderPassConverts(files, init, k, output);
    }
  }

  /** The folder branch of Main after repacking: route every listed file, in listing order. */
  method ConvertFolderFiles(fs: FileSystem, listing: seq<Path>)
    modifies fs
    ensures fs.files == FolderPass(old(fs.files), listing)
  {
    ghost var before := fs.files;
    for i := 0 to |listing|
      invariant fs.files == FolderPass(before, listing[..i])
    {
      var path := listing[i];
      assert listing[..i + 1][..i] == listing[..i];
      if Contains(path, "mcdat") {
        XorFile(fs, path, path + ".dec");
      } else if Contains(path, "dec") {
        XorFile(fs, path, Replace(path, "dec", "enc"));
      }
    }
    assert listing[..|listing|] == listing;
  }

  /** How a run of Main ends: the usage text, "Done." (also after a break), or an uncaught exception at an argument. */
  datatype RunEnd = Usage | Finished | Crashed(at: nat)

  /**
   * Main(args): print the usage without arguments; otherwise for each
   * argument in order, handle it as a file if it is one, then repack it as
   * a folder if it is one. An unsupported file stops the loop.
   */
  method Run(fs: FileSystem, args: seq<Path>, read: ArchiveReader, write: ArchiveWriter) returns (end: RunEnd)
    modifies fs
    ensures end == Usage <==> |args| == 0
    ensures end == Usage ==> fs.files == old(fs.files)
    ensures end.Crashed? ==> end.at < |args|
  {
    if |args| < 1 {
      return Usage;
    }
    for i := 0 to |args|
    {
      var arg := args[i];
      if arg in fs.files {
        var step := HandleFile(fs, arg, read);
        if step == Throw {
          return Crashed(i);
        } else if step == Break {
          break;
        }
      }
      if fs.DirectoryExists(arg) {
        var outcome, packed := RepackVndat(fs, arg, read, write);
        if outcome.Fault? {
          return Crashed(i);
        }
        var files := fs.GetFilesRecursive(arg);
        ConvertFolderFiles(fs, files);
      }
    }
    return Finished;
  }
}
