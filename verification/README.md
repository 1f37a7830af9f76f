# Light.vnTools in Dafny

Light.vnTools unpacks and repacks the `.vndat` containers of the Light.vn
visual-novel engine. A container is a ZIP archive. Its file entries are
either protected by a ZIP password, which is the engine key itself, or
obfuscated by a positional XOR: the first 100 bytes are XORed with a
25-byte key, and the last 99 bytes with the same key reversed. Files of
fewer than 100 bytes are XORed with the reversed key throughout. The same
transform also turns `.mcdat` files into `.dec` files and back.

This project models two versions of the controller and proves properties
of the model:

- `LightvnTools.cs` (1.2.0) runs a loop over all arguments. It unpacks
  with SharpZipLib, decoding only plain containers. It repacks from an
  encoded temporary copy of the folder, and it backs the container up only
  once.
- `Program.cs` (1.0.0) handles a single argument. It unpacks with the
  platform's ZIP support and repacks by encoding the folder in place.

Modules:

- `Keys`: the key, the reversed key, the ZIP password and the PKZIP
  signature.
- `Codec`: the XOR transform. `Transform` is its specification on
  sequences. `Xor` is the in-place method on a byte array, proved equal to
  `Transform`.
- `Zip`: container entries, the signature check and the
  password-protection check.
- `FileSystem`: paths with `\` as the separator, and the .NET path
  functions the tools use (`GetFileName`, `GetExtension`, `Path.Combine`,
  `TrimStart`, `Contains`, `Replace`). Also a `FileSystem` class whose
  `files` map is what every operation reads and rewrites.
- `LightvnTools` and `Program`: the two controllers.

What lies outside the model is passed in as parameters:

- The ZIP library is a pair of functions. An `ArchiveReader` turns
  container bytes into entries. An `ArchiveWriter` turns the streamed
  entries and the password flag into container bytes.
- The order of a directory listing is left open. `GetFilesRecursive`
  promises only that each file below the folder appears exactly once.

Behaviour that the code has and a reader might not expect:

- The 1.2.0 repack writes `<folder name>.vndat` in the working directory,
  not next to the folder. The 1.0.0 repack writes `<folder>.vndat` next to
  the folder.
- In 1.2.0, an argument that exists but is unsupported ends the whole
  argument loop (`break`), not only that argument.
- An argument that is neither a file nor a folder is skipped without a
  message.
- After a repack, 1.2.0 routes every file of the folder by its whole path,
  not by its extension. Encryption replaces every `dec` in the path,
  folder names included (`EncryptRenamesFolders`). `File.OpenWrite`
  creates no folder, so when the renamed folder does not exist the
  encryption fails, is logged, and writes nothing
  (`EncryptIntoRenamedFolderIsLost`).
- A `<folder>_temp` folder left over from an earlier run is archived
  along with the copy.
- The 1.0.0 repack leaves the folder encoded. Its backup copy may not
  overwrite, so a second repack throws after the folder has been encoded
  again, which decodes it (`SecondRepackRestoresFolder`).
- The 1.0.0 unpack stops at the first entry it cannot extract, before
  anything is decoded. The model takes an encrypted or unreadable file
  entry to be such an entry. On a plain, fully readable container it does
  exactly what 1.2.0 does with the corrected XOR of the Findings
  (`UnpackAgreesWithLaterVersion`).

## Model

| member | source | states |
|---|---|---|
| Keys.ReversedKeyMirrorsKey | LightvnTools.cs:16-17 | both keys are 25 bytes, and REVERSED_KEY[i] is KEY[24 - i] |
| Keys.PasswordSpellsKey | LightvnTools.cs:36 | the ZIP password is the key read as text, character by character |
| Keys.SignatureHasNoZeroByte | LightvnTools.cs:11 | the four signature bytes are non-zero, so a zero-filled short read can never match |
| Codec.TransformKeepsLength | LightvnTools.cs:291-314 | the transform keeps the length, and an empty buffer comes back as it is |
| Codec.TransformShort | LightvnTools.cs:293-300 | below 100 bytes, byte i is XORed with REVERSED_KEY[i mod 25] |
| Codec.TransformLong | LightvnTools.cs:301-311 | from 100 bytes on, the header bytes are XORed with KEY[j mod 25], the footer bytes with REVERSED_KEY[(j - (n - 99)) mod 25], and the bytes in between are unchanged |
| Codec.TransformOverlap | LightvnTools.cs:301-311 | for 100 to 198 bytes, a byte that is in both the header and the footer is XORed with both keys |
| Codec.TwoWindowsAt | LightvnTools.cs:301-311 | for any two keys, byte j of the two-window pass is the input byte XORed with the header key byte when j is in the first 100 bytes and with the footer key byte when j is in the last 99 |
| Codec.TwoWindowsRegions | LightvnTools.cs:301-311 | for any two keys, the two-window pass keeps the length, XORs the header-only bytes with the header key, the footer-only bytes with the footer key, the shared bytes with both, and leaves the middle unchanged |
| Codec.TwoWindowsTwice | LightvnTools.cs:301-311 | for any two keys, running the two-window pass twice gives back the input |
| Codec.TransformInvolutive | LightvnTools.cs:291-314 | applying the transform twice gives back the input, so one routine both decodes and encodes |
| Codec.XorWindowInPlace | LightvnTools.cs:299-310 | one XOR loop over a window of the buffer leaves the window XORed with the key, from the window's start, and the rest unchanged |
| Codec.XorTwoWindowsInPlace | LightvnTools.cs:302-311 | the header loop and then the footer loop leave the buffer equal to the two-window pass of its old contents |
| Codec.Xor | LightvnTools.cs:291-314 | the in-place method leaves the buffer equal to Transform of its old contents and returns the same buffer |
| Zip.SignatureBuffer | LightvnTools.cs:239-242 | the four-byte buffer holds the file's first bytes, with zeros after a short file |
| Zip.MatchesSignature | LightvnTools.cs:244-250 | the comparison loop answers true exactly when the buffer equals the PKZIP signature |
| Zip.IsVndat | LightvnTools.cs:235-257 | true exactly when the file exists and starts with the PKZIP signature; a missing or short file gives false; the same check is IsZip in Program.cs |
| Zip.IsPasswordProtectedZip | LightvnTools.cs:264-284 | true exactly when the container can be read and some entry is encrypted; an unreadable container gives false |
| Zip.CryptedDetectionIsOrderFree | LightvnTools.cs:271-276 | an empty container is not protected, and inserting an entry anywhere makes it protected exactly when that entry is encrypted or it already was |
| FileSystem.FileSystem.GetFilesRecursive | LightvnTools.cs:347-350 | the listing holds every file below the folder exactly once, in unspecified order, and nothing else |
| FileSystem.TrimStart | LightvnTools.cs:366 | the result is a suffix of the input that does not start with the character, and every dropped character is that character |
| FileSystem.RelativeNameShape | LightvnTools.cs:204 | an entry or copy name cut from a path never starts with a separator and is a tail of the path |
| FileSystem.RelativeNameOfChild | LightvnTools.cs:366 | cutting `root` from `root\rel` and trimming gives back `rel` |
| FileSystem.CombineKeepsFolder | LightvnTools.cs:367 | combining a folder with a name that does not start with a separator keeps the folder as a prefix |
| FileSystem.CombineChild | LightvnTools.cs:367 | combining a folder with a non-empty relative name gives `folder\name`, which is below the folder and whose relative name is the name |
| FileSystem.RelativeNameInjective | LightvnTools.cs:366 | two files below a folder, each with a single separator after the folder, that have the same relative name are the same file |
| FileSystem.FileNameHasNoSeparator | LightvnTools.cs:161 | the file name part of a path holds no separator |
| FileSystem.ExtensionOfDecSuffix | LightvnTools.cs:49 | a path with ".dec" appended has the extension ".dec" |
| FileSystem.ReplaceDecSuffix | LightvnTools.cs:54 | replacing "dec" with "enc" in `p.dec`, where `p` contains no "dec", gives `p.enc` |
| FileSystem.ExistingFileIsWritable | LightvnTools.cs:333 | `File.OpenWrite` can open an existing file, because its folder exists |
| FileSystem.SiblingIsWritable | LightvnTools.cs:49 | `File.OpenWrite` can open an existing file's name with separator-free text appended, such as `<file>.dec` |
| FileSystem.WritableStaysWritable | LightvnTools.cs:333 | adding files never makes a path unopenable for writing |
| LightvnTools.XorFileAsWritten | LightvnTools.cs:320-340 | as written: a missing input changes nothing; XOR into the input's own path changes nothing, because the second open fails and is caught; an output in a folder that does not exist changes nothing, because File.OpenWrite throws and is caught; otherwise the transform overwrites the start of the output and a longer old tail stays |
| LightvnTools.InPlaceXorIsLost | LightvnTools.cs:327-333 | as written, XOR of the one-byte file [0x00] in place leaves [0x00], while its transform is [0x30] |
| LightvnTools.StaleTailKept | LightvnTools.cs:333-334 | as written, encrypting x.dec = [0x01] over x.enc = [7, 7, 7] gives [0x31, 7, 7] rather than [0x31] |
| LightvnTools.XorFile | LightvnTools.cs:320-340 | corrected: when the input exists and the output's folder exists, the output becomes exactly the transform of the input, with the input's length, and nothing else changes, and transforming the output gives back the input; a missing input or an output in a missing folder changes nothing |
| LightvnTools.XorEach | LightvnTools.cs:143-147 | XOR in place over a listing transforms exactly the listed files |
| LightvnTools.ListedOnce | LightvnTools.cs:143-147 | in a listing without repeats, the next file has not been transformed yet |
| LightvnTools.XorAllTwice | LightvnTools.cs:143-147 | transforming the same set of files twice gives the files back |
| LightvnTools.ExtractedEntry | LightvnTools.cs:111-131 | an extracted file entry's path holds that entry's bytes, unless a later entry is written to the same path |
| LightvnTools.ExtractKeepsOthers | LightvnTools.cs:111-131 | extraction changes no file that no readable file entry is written to |
| LightvnTools.UnpackDecodesIffPlain | LightvnTools.cs:136-151 | an extracted file below the output folder holds the transform of its entry when the container is plain, and the entry's bytes when it is protected |
| LightvnTools.UnpackKeepsOutsideFiles | LightvnTools.cs:93-152 | unpacking leaves a file outside the output folder alone unless an entry is written to it |
| LightvnTools.UnpackVndat | LightvnTools.cs:93-152 | faults exactly when the container cannot be opened, and then changes nothing; otherwise the files become the extracted entries, decoded below the output folder exactly when the container is plain |
| LightvnTools.CopiedExactly | LightvnTools.cs:364-374 | a copied file holds its source's bytes when no other source file has the same target |
| LightvnTools.TargetOutsideSource | LightvnTools.cs:366-367 | a copy target never lies in the source tree |
| LightvnTools.CopyStep | LightvnTools.cs:364-374 | one more File.Copy keeps every earlier target holding its source's bytes and leaves the new source unchanged, because no target lies in the source tree |
| LightvnTools.CopyAllProgress | LightvnTools.cs:362-374 | copying the listed files one by one adds exactly the recorded targets, each holding the original bytes of the source that wrote it last, and changes no other file |
| LightvnTools.CopyOriginCovers | LightvnTools.cs:362-374 | every copied file's target is recorded |
| LightvnTools.CopyAllCopied | LightvnTools.cs:357-375 | copying a complete listing of the source folder, file by file, is the complete copy |
| LightvnTools.CopyFolder | LightvnTools.cs:357-375 | afterwards the files are the old files plus one target per source file; every other file is unchanged, and each target holds the bytes of a source file that maps to it |
| LightvnTools.BackupTakenOnce | LightvnTools.cs:165-171 | after the container is rewritten, a second backup step changes nothing, and the backup still holds the container from before the first |
| LightvnTools.BackupOnce | LightvnTools.cs:165-171 | the backup is taken only when it is missing; the step fails exactly when both the backup and the container are missing, and then changes nothing |
| LightvnTools.PackFiles | LightvnTools.cs:198-218 | one entry per listed file, in order, holding the file's bytes under its name relative to the root; no entry name starts with a separator |
| LightvnTools.ListingPacks | LightvnTools.cs:198-218 | packing a complete listing streams each file below the root exactly as often as it is listed, and nothing else |
| LightvnTools.ListedFilesArePacked | LightvnTools.cs:198-218 | every file of a complete listing appears among the streamed entries |
| LightvnTools.PacksSameFiles | LightvnTools.cs:198-218 | whether entries pack a folder depends only on the files below that folder |
| LightvnTools.PlainRepackHolds | LightvnTools.cs:183-225 | copying, encoding, streaming the copy and deleting it is the plain repack, and the deletion removes only the copy |
| LightvnTools.StreamFolder | LightvnTools.cs:175-218 | the new container is written from entries that pack the root folder, and no other file changes |
| LightvnTools.RepackPathsOutsideSource | LightvnTools.cs:161-166 | the container and its backup lie neither in the source folder nor in the temporary folder; the temporary folder lies beside the source folder |
| LightvnTools.CopiedKeepsSource | LightvnTools.cs:185-188 | copying to the temporary folder leaves every file of the source folder as it was |
| LightvnTools.EncodeScratchCopy | LightvnTools.cs:183-195 | the folder is copied to `<folder>_temp` and every file of the copy is transformed |
| LightvnTools.ScratchTargetShape | LightvnTools.cs:366-367 | a copy into the temporary folder lands on that folder or below it |
| LightvnTools.PlainRepackKeepsBackup | LightvnTools.cs:183-225 | the plain branch leaves the backup as it was |
| LightvnTools.RepackKeepsSource | LightvnTools.cs:159-228 | repacking leaves every file of the source folder as it was, in both branches |
| LightvnTools.RepackVndat | LightvnTools.cs:159-228 | faults exactly when both the backup and the container are missing; the backup holds the old backup, or else the old container; the source folder is unchanged; a protected container is rewritten from the folder's own files, a plain one from the encoded temporary copy, which is then deleted |
| LightvnTools.ScratchTargetOfSimplyNamed | LightvnTools.cs:366-367 | a file with a single separator after the source folder is copied below the temporary folder under the same relative name |
| LightvnTools.PlainRepackStreamsEncodedSource | LightvnTools.cs:183-218 | a plain repack streams every file of the source folder, encoded, under its name relative to the folder |
| LightvnTools.PlainRepackStreamsOnlySource | LightvnTools.cs:183-218 | when no temporary folder was left over, every entry of a plain repack is a file of the source folder, encoded, under its relative name |
| LightvnTools.RepackUndoesUnpack | LightvnTools.cs:183-218 | a file that holds the decoding of some bytes is streamed as exactly those bytes, so repacking restores the entry that unpacking decoded |
| LightvnTools.DecryptedFileRoutesBack | LightvnTools.cs:46-55 | a `.mcdat` file is decrypted to `.mcdat.dec`, and that file is encrypted to `.mcdat.enc` |
| LightvnTools.DecFileIsEncrypted | LightvnTools.cs:46-55 | any `<p>.dec` file that is not a container is encrypted to the path with every "dec" replaced by "enc" |
| LightvnTools.EncryptRenamesFolders | LightvnTools.cs:54 | encryption replaces every "dec" in the path: `dec\a.dec` becomes `enc\a.enc` |
| LightvnTools.EncryptIntoRenamedFolderIsLost | LightvnTools.cs:333-339 | with only `dec\a.dec` on disk, `enc\a.enc` cannot be opened for writing, so its encryption writes nothing |
| LightvnTools.HandleFile | LightvnTools.cs:40-61 | a container is unpacked into the folder named after it (throwing when it cannot be opened); an extension containing "mcdat" decrypts to `<file>.dec`, then one containing "dec" encrypts to the path with "dec" replaced; anything else breaks the loop and changes nothing; an encryption output in a folder that does not exist is not written |
| LightvnTools.FolderPassKeepsOthers | LightvnTools.cs:66-78 | routing the folder's files changes no file that is not the output of a listed file |
| LightvnTools.FolderPassConverts | LightvnTools.cs:66-78 | a listed file whose output lies in an existing folder, and whose output and own path no other listed file writes, ends up transformed at its output |
| LightvnTools.ConvertFolderFiles | LightvnTools.cs:66-78 | the loop applies the routes of the listed files in listing order, skipping an output whose folder does not exist |
| LightvnTools.Run | LightvnTools.cs:19-85 | no arguments prints the usage and changes nothing; a crash names an argument |
| Program.XorFile | Program.cs:128-173 | an existing file is replaced by its transform; an empty file is skipped, which is the same; transforming it again gives the old file back; a missing file changes nothing |
| Program.XorEach | Program.cs:60-64 | XORFile over a listing transforms exactly the listed files |
| Program.EncodeFolder | Program.cs:72-79 | every file below the folder is transformed in place |
| Program.FirstFailure | Program.cs:55 | extraction reaches exactly the entries before the first encrypted or unreadable file entry |
| Program.ExtractToDirectory | Program.cs:55 | an unreadable container changes nothing; otherwise the entries up to the first failing one are written, and the call succeeds exactly when none fails |
| Program.Unpack | Program.cs:39-67 | succeeds exactly when the container opens and no entry fails; the files below the output folder are decoded only then |
| Program.UnpackAgreesWithLaterVersion | Program.cs:55-64 | on a plain container whose file entries all read, 1.0.0 unpacks exactly as 1.2.0 does with the corrected XOR |
| Program.EncryptedEntryStopsUnpack | Program.cs:55 | an encrypted file entry stops the extraction at or before it, and nothing is decoded |
| Program.ArchiveBesideFolder | Program.cs:82-85 | `<folder>.vndat` and its backup lie outside the folder and differ |
| Program.StagingKeepsFolder | Program.cs:83-85 | backing up and deleting the container leaves the files of the folder as they were |
| Program.ReplaceArchive | Program.cs:83-85 | the backup takes the old container, and the new container is written from entries that pack the folder |
| Program.Repack | Program.cs:70-90 | the folder is always left encoded; the step throws exactly when the container is missing or the backup exists; otherwise the backup takes the old container and the new one packs the encoded folder |
| Program.RepackStreamsEncodedFolder | Program.cs:87 | the new container holds every file of the folder, encoded, under its relative name, and nothing else |
| Program.SecondRepackRestoresFolder | Program.cs:72-85 | after one repack the backup exists, so a second one throws, and its in-place encoding has restored the folder's original files |
| Program.Run | Program.cs:19-93 | no arguments prints the usage; an existing file without the ZIP signature is refused and nothing changes |

## Left out

- Console output and the final key press are not modelled.
- The ZIP libraries (SharpZipLib in 1.2.0, System.IO.Compression in 1.0.0) are foreign code. They appear as the functions `ArchiveReader` and `ArchiveWriter`. Compression, entry timestamps, entry sizes and the 4096-byte copy buffer are not modelled.
- Directories exist only through the files below them. `Directory.CreateDirectory`, empty directories, directory entries in new containers and `Directory.Delete` of the empty folders are not modelled.
- Entry names are used exactly as the library reports them. A `/` inside a name is not turned into `\`.
- Failures of `Directory.CreateDirectory` are not modelled: for example a file that already holds the output folder's name (LightvnTools.cs:98, and LightvnTools.cs:114, which lies outside the try). The `files` map also allows a path that is a file and a folder at once, which a disk does not.
- `(int)inputStream.Length` truncates files above 2 GiB. The model has unbounded lengths.
- `Path.Combine` treats only a leading `\` as rooted. Drive letters and `/` separators are not modelled.
- Read errors in the middle of a file are not modelled. A file is either readable as a whole or missing.
- LightvnTools.CopyFolder: it is stated only for a destination that extends the source's name, as `<folder>_temp` does. That is the only destination the tool uses.
- LightvnTools.RepackVndat: the plain-branch result is stated through an existential over the copied state. When two source paths differ only by doubled separators, their copies collide, and which one wins depends on the listing order.
- LightvnTools.Run: its contract covers only the usage path and crash positions. The effect of each argument is stated by HandleFile, RepackVndat and ConvertFolderFiles.
- Program.Run: its contract covers only the usage and refusal paths. The unpack and repack effects are stated by Program.Unpack and Program.Repack.
- LightvnTools.UnpackVndat, LightvnTools.RepackVndat, LightvnTools.HandleFile, LightvnTools.Run, LightvnTools.XorEach, LightvnTools.EncodeScratchCopy, LightvnTools.ConvertFolderFiles, LightvnTools.FolderPass, LightvnTools.FolderPassConverts, LightvnTools.UnpackDecodesIffPlain, LightvnTools.PlainRepackStreamsEncodedSource, LightvnTools.PlainRepackStreamsOnlySource, LightvnTools.RepackUndoesUnpack and Program.UnpackAgreesWithLaterVersion use the corrected LightvnTools.XorFile (see Findings). The as-written XOR would leave every in-place file unchanged and keep a longer old tail of an output.
- LightvnTools.FolderPassConverts: it states that the output holds exactly the transform. As written, `File.OpenWrite` keeps the old tail of a longer existing output (second row of Findings, LightvnTools.StaleTailKept).
- LightvnTools.UnpackVndat: one `ArchiveReader` stands for both SharpZipLib readers, the `ZipInputStream` scan of IsPasswordProtectedZip and the `ZipFile` that extracts. The model assumes that they read a container alike. A container that the scan cannot read but `ZipFile` opens would be extracted and then XORed in the source; LightvnTools.UnpackDecodesIffPlain and LightvnTools.RepackUndoesUnpack rest on the same assumption.
- LightvnTools.UnpackKeepsOutsideFiles: paths are compared as plain strings. `.` and `..` segments, relative against absolute forms and the case-insensitivity of Windows paths are not resolved. An entry named `..\x` is written to `x` by the source, outside the output folder, while the model places it below the folder; 1.0.0's ExtractToDirectory throws on such an entry, which Program.ExtractToDirectory and Program.Fails do not cover. A repack run with the argument `.`, or from a working directory inside the folder, puts the container and its backup inside the source folder, which LightvnTools.RepackPathsOutsideSource, LightvnTools.RepackKeepsSource and Program.ArchiveBesideFolder do not cover.
- LightvnTools.RepackPathsOutsideSource, LightvnTools.RepackKeepsSource, Program.ExtractToDirectory: they rest on plain string paths, as stated for LightvnTools.UnpackKeepsOutsideFiles.
- FileSystem.FileSystem.GetFilesRecursive: folder paths are taken without a trailing separator. For `data\` the model's listing is empty, while Directory.GetFiles lists the files of `data`. FileSystem.FolderExists, LightvnTools.RepackVndat and Program.Repack share this reading.
- Program.ArchiveBesideFolder: it holds for a folder path without a trailing separator. For `data\` the code writes `data\.vndat`, which lies inside the folder, and the model treats that container as outside the folder (Program.StagingKeepsFolder, Program.Repack). The argument `.` gives `..vndat`, which the source writes inside the current folder; the model does not resolve `.` either (see LightvnTools.UnpackKeepsOutsideFiles).
- Program.Fails: System.IO.Compression is not part of this model. The model assumes that extracting an encrypted file entry throws, as it does for an unreadable one; Program.FirstFailure, Program.ExtractToDirectory, Program.Unpack and Program.EncryptedEntryStopsUnpack rest on that assumption. An entry whose name leaves the destination folder (`..\x`) also makes the real extraction throw; the model writes it.
- Program.FirstFailure: an encrypted file entry counts as a failure only under the assumption stated for Program.Fails.
- Program.EncryptedEntryStopsUnpack: it holds only under the assumption stated for Program.Fails. A library that extracted an encrypted entry as its stored bytes would go on past it.
- Program.UnpackAgreesWithLaterVersion: it compares 1.0.0 with 1.2.0 using the corrected XOR. As written, 1.2.0 leaves the files of a plain container encoded (LightvnTools.InPlaceXorIsLost).

## Findings

| source | as written | input that shows it | evidently intended | confidence | as-written member | corrected member |
|---|---|---|---|---|---|---|
| LightvnTools.cs:327-333 | the input stream is a `using` declaration and stays open until the end of the try block, so `File.OpenWrite` on the same path fails with a sharing violation, which the catch only logs | XOR of an existing one-byte file [0x00] in place: it stays [0x00] instead of becoming [0x30] | close the input before opening the output, as Program.cs:135-139 does, so that in-place XOR rewrites the file | not executed | LightvnTools.InPlaceXorIsLost | LightvnTools.XorFile |
| LightvnTools.cs:333-334 | `File.OpenWrite` does not truncate, so an existing longer output keeps its old tail | encrypting x.dec = [0x01] over x.enc = [7, 7, 7] gives [0x31, 7, 7] | the output holds exactly the transform | not executed | LightvnTools.StaleTailKept | LightvnTools.XorFile |
