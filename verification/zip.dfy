/**
 * What the tool sees of a ZIP container: the signature at offset 0 and the
 * entries the container library lists. Reading and writing containers is
 * the library's business; the model receives it as functions.
 */
module Zip {
  import opened Wrappers
  import opened Keys

  /**
   * An entry as the library lists it. `data` is what reading the entry
   * yields, the password KEY supplied when the container needs one; None
   * when reading it throws.
   */
  datatype Entry = Entry(name: string, isDirectory: bool, isCrypted: bool, data: Option<seq<bv8>>)

  /** An entry the repacker streams into a new container: its name and its bytes. */
  datatype PackedEntry = PackedEntry(name: string, data: seq<bv8>)

  /** The file starts with the PKZIP local file header signature 50 4B 03 04. */
  predicate HasPkzipSignature(data: seq<bv8>) {
    |data| >= |PKZIP| && data[..|PKZIP|] == PKZIP
  }

  /** At least one entry needs container-level decryption. */
  predicate AnyCrypted(entries: seq<Entry>) {
    exists i :: 0 <= i < |entries| && entries[i].isCrypted
  }

  /**
   * The four-byte buffer `new byte[4]` holds after one read from the start
   * of a file: the file's first bytes, zero where the file is shorter.
   */
  function SignatureBuffer(data: seq<bv8>): (r: seq<bv8>)
    ensures |r| == |PKZIP|
  {
    seq(|PKZIP|, i requires 0 <= i < |PKZIP| => if i < |data| then data[i] else 0)
  }

  /** The compare loop of IsVndat and IsZip: byte by byte, returning false at the first mismatch. */
  method MatchesSignature(buffer: seq<bv8>) returns (ok: bool)
    requires |buffer| == |PKZIP|
    ensures ok <==> buffer == PKZIP
  {
    for i := 0 to |buffer|
      invariant forall k :: 0 <= k < i ==> buffer[k] == PKZIP[k]
    {
      if buffer[i] != PKZIP[i] {
        return false;
      }
    }
    return true;
  }

  /**
   * IsVndat: a file is a container iff it can be opened, has at least four
   * bytes and starts with the signature. A file that cannot be opened is
   * reported and rejected; a shorter one leaves zeros in the buffer, which
   * never match.
   */
  method IsVndat(file: Option<seq<bv8>>) returns (r: bool)
    ensures r <==> file.Some? && HasPkzipSignature(file.value)
  {
    if file.None? {
      return false;
    }
    var data := file.value;
    var signature := SignatureBuffer(data);
    r := MatchesSignature(signature);
    if |data| < |PKZIP| {
      SignatureHasNoZeroByte();
      assert signature[|data|] == 0 != PKZIP[|data|];
    } else {
      assert signature == data[..|PKZIP|];
    }
  }

  /**
   * IsPasswordProtectedZip: scans the listed entries and answers true at
   * the first crypted one; a container that cannot be read answers false.
   */
  method IsPasswordProtectedZip(archive: Option<seq<Entry>>) returns (r: bool)
    ensures r <==> archive.Some? && AnyCrypted(archive.value)
  {
    if archive.None? {
      return false;
    }
    var entries := archive.value;
    var i := 0;
    while i < |entries|
      invariant i <= |entries|
      invariant forall k :: 0 <= k < i ==> !entries[k].isCrypted
    {
      if entries[i].isCrypted {
        return true;
      }
      i := i + 1;
    }
    return false;
  }

  /** A container with no entries is plain; one crypted entry makes it protected, wherever it stands. */
  lemma CryptedDetectionIsOrderFree(entries: seq<Entry>, e: Entry, k: nat)
    requires k <= |entries|
    ensures !AnyCrypted([])
    ensures e.isCrypted ==> AnyCrypted(entries[..k] + [e] + entries[k..])
    ensures AnyCrypted(entries[..k] + [e] + entries[k..]) <==> e.isCrypted || AnyCrypted(entries)
  {
    var s := entries[..k] + [e] + entries[k..];
    assert s[k] == e;
    if AnyCrypted(s) && !e.isCrypted {
      var i :| 0 <= i < |s| && s[i].isCrypted;
      if i < k {
        assert entries[i] == s[i];
      } else {
        assert entries[i - 1] == s[i];
      }
    }
    if AnyCrypted(entries) {
      var i :| 0 <= i < |entries| && entries[i].isCrypted;
      if i < k {
        assert s[i] == entries[i];
      } else {
        assert s[i + 1] == entries[i];
      }
    }
  }
}
