/**
 * Light.vnTools 1.0.0, the first controller: it takes one argument, unpacks
 * a container with the platform's ZIP support and decodes every extracted
 * file in place, or encodes a folder in place and archives it next to
 * itself, backing the old container up with a copy that may not overwrite.
 */
module Program {
  import opened Wrappers
  import opened Codec
  import opened Zip
  import opened FileSystem
  import LightvnTools

  const ARCHIVE_EXTENSION: string := ".vndat"
  const BACKUP_EXTENSION: string := ".bak"

  // ---------------------------------------------------------------------
  // XORFile(filePath)

  /**
   * XORFile(path): read the file and close it, skip it when it is empty,
   * otherwise overwrite it with its transform. A missing file is an error
   * that is logged and changes nothing.
   */
  method XorFile(fs: FileSystem, path: Path)
    modifies fs
    ensures path !in old(fs.files) ==> fs.files == old(fs.files)
    ensures path in old(fs.files) ==> fs.files == old(fs.files)[path := Transform(old(fs.files)[path])]
    ensures path in old(fs.files) ==> Transform(fs.files[path]) == old(fs.files)[path]
  {
    if path !in fs.files {
      return;
    }
    var data := fs.files[path];
    TransformInvolutive(data);
    if |data| == 0 {
      assert fs.files == fs.files[path := Transform(data)];
      return;
    }
    var buffer := new bv8[|data|](i requires 0 <= i < |data| => data[i]);
    assert buffer[..] == data;
    buffer := Xor(buffer);
    fs.files := fs.files[path := buffer[..]];
  }

  /** XORFile on every file of a listing. */
  method XorEach(fs: FileSystem, listing: seq<Path>)
    requires forall i, j :: 0 <= i < j < |listing| ==> listing[i] != listing[j]
    requires forall i :: 0 <= i < |listing| ==> listing[i] in fs.files
    modifies fs
    ensures fs.files == LightvnTools.XorAll(old(fs.files), set p | p in listing)
  {
    ghost var before := fs.files;
    ghost var done: set<Path> := {};
    for i := 0 to |listing|
      invariant forall p :: p in done <==> p in listing[..i]
      invariant fs.files == LightvnTools.XorAll(before, done)
    {
      var p := listing[i];
      assert p !in done;
      LightvnTools.XorAllAddOne(before, done, p);
      XorFile(fs, p);
      done := done + {p};
      assert listing[..i + 1] == listing[..i] + [p];
    }
    assert done == set p | p in listing;
  }

  /** The files after every file below `folder` has been transformed in place. */
  function Encoded(files: map<Path, seq<bv8>>, folder: Path): (r: map<Path, seq<bv8>>) {
    LightvnTools.XorAll(files, FilesUnder(files, folder))
  }

  /** Transform every file below `folder` in place, in listing order. */
  method EncodeFolder(fs: FileSystem, folder: Path)
    modifies fs
    ensures fs.files == Encoded(old(fs.files), folder)
  {
    var files := fs.GetFilesRecursive(folder);
    XorEach(fs, files);
    assert (set p | p in files) == FilesUnder(old(fs.files), folder);
  }

  // ---------------------------------------------------------------------
  // Unpack: ZipFile.ExtractToDirectory, then XORFile on every file

  /** The platform's extraction throws on a file entry it cannot read: an encrypted one or one whose bytes fail. */
  predicate Fails(e: Entry) {
    !e.isDirectory && (e.isCrypted || e.data.None?)
  }

  /** The index of the first entry extraction throws on, or the number of entries. */
  function FirstFailure(entries: seq<Entry>): (k: nat)
    ensures k <= |entries|
    ensures forall j :: 0 <= j < k ==> !Fails(entries[j])
    ensures k < |entries| ==> Fails(entries[k])
  {
    if entries == [] then 0
    else if Fails(entries[0]) then 0
    else 1 + FirstFailure(entries[1..])
  }

  /**
   * ExtractToDirectory(archive, folder, overwrite: true): write the entries
   * in order until one throws. A container that cannot be opened throws at
   * once.
   */
  method ExtractToDirectory(fs: FileSystem, archive: Option<seq<Entry>>, folder: Path) returns (ok: bool)
    modifies fs
    ensures archive.None? ==> !ok && fs.files == old(fs.files)
    ensures archive.Some? ==>
      var k := FirstFailure(archive.value);
      && (ok <==> k == |archive.value|)
      && fs.files == LightvnTools.ExtractEntries(old(fs.files), folder, archive.value[..k])
  {
    if archive.None? {
      return false;
    }
    var entries := archive.value;
    ghost var before := fs.files;
    for i := 0 to |entries|
      invariant forall j :: 0 <= j < i ==> !Fails(entries[j])
      invariant fs.files == LightvnTools.ExtractEntries(before, folder, entries[..i])
    {
      var e := entries[i];
      if Fails(e) {
        assert FirstFailure(entries) == i;
        return false;
      }
      assert entries[..i + 1][..i] == entries[..i];
      if !e.isDirectory {
        fs.files := fs.files[Combine(folder, e.name) := e.data.value];
      }
    }
    assert entries[..|entries|] == entries;
    return true;
  }

  /** The files after unpacking a readable container into `folder`: extracted up to the failure, decoded only without one. */
  function Unpacked(files: map<Path, seq<bv8>>, folder: Path, entries: seq<Entry>): (r: map<Path, seq<bv8>>) {
    var k := FirstFailure(entries);
    var extracted := LightvnTools.ExtractEntries(files, folder, entries[..k]);
    if k < |entries| then extracted else Encoded(extracted, folder)
  }

  /**
   * The unpack branch: extract the container into the folder named after
   * it, then decode every file below that folder. An exception from the
   * extraction ends the program before anything is decoded.
   */
  method Unpack(fs: FileSystem, input: Path, read: LightvnTools.ArchiveReader) returns (outcome: Outcome)
    modifies fs
    ensures var archive := LightvnTools.ArchiveAt(old(fs.files), input, read);
      var folder := FileNameWithoutExtension(input);
      && (outcome.Ok? <==> archive.Some? && FirstFailure(archive.value) == |archive.value|)
      && fs.files == if archive.None? then old(fs.files) else Unpacked(old(fs.files), folder, archive.value)
  {
    var outputFolder := FileNameWithoutExtension(input);
    var ok := ExtractToDirectory(fs, LightvnTools.ArchiveAt(fs.files, input, read), outputFolder);
    if !ok {
      return Fault("cannot extract " + input);
    }
    EncodeFolder(fs, outputFolder);
    outcome := Ok;
  }

  /**
   * On a plain container whose entries all read, the first version unpacks
   * exactly as the later one does.
   */
  lemma UnpackAgreesWithLaterVersion(files: map<Path, seq<bv8>>, folder: Path, entries: seq<Entry>)
    requires !AnyCrypted(entries)
    requires forall i :: 0 <= i < |entries| && !entries[i].isDirectory ==> entries[i].data.Some?
    ensures Unpacked(files, folder, entries) == LightvnTools.Unpacked(files, folder, entries)
  {
    var k := FirstFailure(entries);
    assert k == |entries|;
    assert entries[..k] == entries;
  }

  /** An encrypted file entry stops the first version before anything is decoded. */
  lemma EncryptedEntryStopsUnpack(files: map<Path, seq<bv8>>, folder: Path, entries: seq<Entry>, i: nat)
    requires i < |entries| && entries[i].isCrypted && !entries[i].isDirectory
    ensures FirstFailure(entries) <= i
    ensures Unpacked(files, folder, entries) == LightvnTools.ExtractEntries(files, folder, entries[..FirstFailure(entries)])
  {
    assert Fails(entries[i]);
  }

  // ---------------------------------------------------------------------
  // Repack

  /** The container of a folder: `<folder>.vndat`, beside the folder. */
  function ArchiveName(folder: Path): (r: Path) {
    folder + ARCHIVE_EXTENSION
  }

  /** The backup of a container: `<container>.bak`. */
  function BackupName(archive: Path): (r: Path) {
    archive + BACKUP_EXTENSION
  }

  /** The container and its backup lie outside the folder. */
  lemma ArchiveBesideFolder(folder: Path)
    ensures !Under(folder, ArchiveName(folder)) && !Under(folder, BackupName(ArchiveName(folder)))
    ensures ArchiveName(folder) != BackupName(ArchiveName(folder))
  {
    assert ArchiveName(folder)[|folder|] == '.';
    assert BackupName(ArchiveName(folder))[|folder|] == '.';
    assert |ArchiveName(folder)| != |BackupName(ArchiveName(folder))|;
  }

  /** Copying the container to its backup and deleting it leaves the folder's files alone. */
  lemma StagingKeepsFolder(before: map<Path, seq<bv8>>, input: Path, written: seq<bv8>)
    requires ArchiveName(input) in before
    ensures var archive := ArchiveName(input);
      var staged := before[BackupName(archive) := before[archive]] - {archive};
      && FilesUnder(staged, input) == FilesUnder(before, input)
      && (forall p :: p in before && Under(input, p) ==> staged[p] == before[p])
      && staged[archive := written] == before[BackupName(archive) := before[archive]][archive := written]
  {
    ArchiveBesideFolder(input);
  }

  /**
   * Back the container up, delete it and archive the folder, without a
   * password, as the new container.
   */
  method ReplaceArchive(fs: FileSystem, input: Path, write: LightvnTools.ArchiveWriter) returns (ghost packed: seq<PackedEntry>)
    requires ArchiveName(input) in fs.files && BackupName(ArchiveName(input)) !in fs.files
    modifies fs
    ensures var archive := ArchiveName(input);
      && LightvnTools.Packs(packed, input, old(fs.files))
      && fs.files == old(fs.files)[BackupName(archive) := old(fs.files)[archive]][archive := write(packed, false)]
  {
    var fileName := ArchiveName(input);
    var backupFile := BackupName(fileName);
    ghost var before := fs.files;
    fs.files := fs.files[backupFile := fs.files[fileName]];
    fs.files := fs.files - {fileName};
    ghost var staged := fs.files;
    var files := fs.GetFilesRecursive(input);
    packed := LightvnTools.StreamFolder(fs, fileName, files, input, false, write);
    StagingKeepsFolder(before, input, write(packed, false));
    LightvnTools.PacksSameFiles(packed, input, staged, before);
  }

  /**
   * The repack branch: encode every file of the folder in place, copy the
   * container to its backup (File.Copy throws when the container is
   * missing or the backup exists, leaving the folder encoded), delete the
   * container and archive the folder as the new container. `packed` is the
   * entry list that was written.
   */
  method Repack(fs: FileSystem, input: Path, write: LightvnTools.ArchiveWriter)
    returns (outcome: Outcome, ghost packed: seq<PackedEntry>)
    modifies fs
    ensures var archive := ArchiveName(input);
      outcome.Fault? <==> archive !in old(fs.files) || BackupName(archive) in old(fs.files)
    ensures outcome.Fault? ==> fs.files == Encoded(old(fs.files), input)
    ensures outcome.Ok? ==>
      var archive := ArchiveName(input);
      var encoded := Encoded(old(fs.files), input);
      && LightvnTools.Packs(packed, input, encoded)
      && fs.files == encoded[BackupName(archive) := old(fs.files)[archive]][archive := write(packed, false)]
  {
    EncodeFolder(fs, input);
    var fileName := ArchiveName(input);
    var backupFile := BackupName(fileName);
    ArchiveBesideFolder(input);
    if fileName !in fs.files || backupFile in fs.files {
      return Fault("cannot back up " + fileName), [];
    }
    packed := ReplaceArchive(fs, input, write);
    outcome := Ok;
  }

  /**
   * The container holds every file of the folder, encoded, under its name
   * relative to the folder, and nothing else.
   */
  lemma RepackStreamsEncodedFolder(files: map<Path, seq<bv8>>, input: Path, packed: seq<PackedEntry>)
    requires LightvnTools.Packs(packed, input, Encoded(files, input))
    ensures forall p :: p in files && Under(input, p) ==>
      PackedEntry(RelativeName(p, input), Transform(files[p])) in packed
    ensures forall i :: 0 <= i < |packed| ==>
      exists p :: p in files && Under(input, p) && packed[i] == PackedEntry(RelativeName(p, input), Transform(files[p]))
  {
    var encoded := Encoded(files, input);
    forall p | p in files && Under(input, p)
      ensures PackedEntry(RelativeName(p, input), Transform(files[p])) in packed
    {
      assert p in FilesUnder(encoded, input);
    }
    forall i | 0 <= i < |packed|
      ensures exists p :: p in files && Under(input, p) && packed[i] == PackedEntry(RelativeName(p, input), Transform(files[p]))
    {
      var p :| p in FilesUnder(encoded, input) && packed[i] == LightvnTools.PackedFrom(encoded, p, input);
      assert encoded[p] == Transform(files[p]);
    }
  }

  /**
   * After one successful repack the backup exists, so a second repack
   * throws; its in-place encoding then decodes the folder, which is left
   * as it was before the first.
   */
  lemma SecondRepackRestoresFolder(files: map<Path, seq<bv8>>, input: Path, packed: seq<PackedEntry>, write: LightvnTools.ArchiveWriter)
    requires ArchiveName(input) in files
    ensures var archive := ArchiveName(input);
      var once := Encoded(files, input)[BackupName(archive) := files[archive]][archive := write(packed, false)];
      && BackupName(archive) in once
      && forall p :: Under(input, p) ==>
           (p in Encoded(once, input) <==> p in files) && (p in files ==> Encoded(once, input)[p] == files[p])
  {
    var archive := ArchiveName(input);
    var encoded := Encoded(files, input);
    var once := encoded[BackupName(archive) := files[archive]][archive := write(packed, false)];
    ArchiveBesideFolder(input);
    assert FilesUnder(once, input) == FilesUnder(encoded, input);
    assert FilesUnder(encoded, input) == FilesUnder(files, input);
    forall p | Under(input, p) && p in files
      ensures Encoded(once, input)[p] == files[p]
    {
      TransformInvolutive(files[p]);
    }
  }

  // ---------------------------------------------------------------------
  // Main

  /** How a run of the first version ends. */
  datatype RunEnd = Usage | NotArchive | Finished | Crashed

  /**
   * Main(args): only the first argument is used. An existing file must
   * carry the ZIP signature and is unpacked; then, if the argument is a
   * folder, it is repacked.
   */
  method Run(fs: FileSystem, args: seq<Path>, read: LightvnTools.ArchiveReader, write: LightvnTools.ArchiveWriter)
    returns (end: RunEnd)
    modifies fs
    ensures end == Usage <==> |args| == 0
    ensures end == Usage ==> fs.files == old(fs.files)
    ensures end == NotArchive <==> |args| > 0 && args[0] in old(fs.files) && !HasPkzipSignature(old(fs.files)[args[0]])
    ensures end == NotArchive ==> fs.files == old(fs.files)
  {
    if |args| < 1 {
      return Usage;
    }
    var input := args[0];
    if input in fs.files {
      var isZip := IsVndat(Some(fs.files[input]));
      if !isZip {
        return NotArchive;
      }
      var outcome := Unpack(fs, input, read);
      if outcome.Fault? {
        return Crashed;
      }
    }
    if fs.DirectoryExists(input) {
      var outcome, packed := Repack(fs, input, write);
      if outcome.Fault? {
        return Crashed;
      }
    }
    return Finished;
  }
}
