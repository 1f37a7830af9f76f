/**
 * The fixed key material of the Light.vn container format: the 25-byte
 * keystream used by the XOR transform, its reverse, the password text it
 * spells, and the PKZIP local-file-header signature that every container
 * starts with.
 */
module Keys {

  /** Length of both keystreams; the transform indexes them modulo this. */
  const KEY_LENGTH: nat := 25

  /** Keystream XORed into the first 100 bytes of a long buffer. */
  const KEY: seq<bv8> := [
    0x64, 0x36, 0x63, 0x35, 0x66, 0x4B, 0x49, 0x33, 0x47, 0x67, 0x42, 0x57, 0x70,
    0x5A, 0x46, 0x33, 0x54, 0x7A, 0x36, 0x69, 0x61, 0x33, 0x6B, 0x46, 0x30]

  /** Keystream XORed into short buffers and into the last 99 bytes of long ones. */
  const REVERSED_KEY: seq<bv8> := [
    0x30, 0x46, 0x6B, 0x33, 0x61, 0x69, 0x36, 0x7A, 0x54, 0x33, 0x46, 0x5A, 0x70,
    0x57, 0x42, 0x67, 0x47, 0x33, 0x49, 0x4B, 0x66, 0x35, 0x63, 0x36, 0x64]

  /** The key read as text; old containers use it as their ZIP password. */
  const PASSWORD: string := "d6c5fKI3GgBWpZF3Tz6ia3kF0"

  /** Local file header signature "PK\x03\x04" (section 4.3.7 of the PKWARE APPNOTE.TXT). */
  const PKZIP: seq<bv8> := [0x50, 0x4B, 0x03, 0x04]

  /** REVERSED_KEY is KEY read backwards, and both have KEY_LENGTH bytes. */
  lemma ReversedKeyMirrorsKey()
    ensures |KEY| == KEY_LENGTH && |REVERSED_KEY| == KEY_LENGTH
    ensures forall i :: 0 <= i < KEY_LENGTH ==> REVERSED_KEY[i] == KEY[KEY_LENGTH - 1 - i]
  {
    forall i | 0 <= i < KEY_LENGTH
      ensures REVERSED_KEY[i] == KEY[KEY_LENGTH - 1 - i]
    {
      assert i == 0 || i == 1 || i == 2 || i == 3 || i == 4 || i == 5 || i == 6 || i == 7 ||
             i == 8 || i == 9 || i == 10 || i == 11 || i == 12 || i == 13 || i == 14 || i == 15 ||
             i == 16 || i == 17 || i == 18 || i == 19 || i == 20 || i == 21 || i == 22 || i == 23 ||
             i == 24;
    }
  }

  /** The password text is KEY decoded as ASCII (hence also as UTF-8): one character per key byte. */
  lemma PasswordSpellsKey()
    ensures |PASSWORD| == |KEY|
    ensures forall i :: 0 <= i < |KEY| ==> PASSWORD[i] as int == KEY[i] as int
  {
    forall i | 0 <= i < |KEY|
      ensures PASSWORD[i] as int == KEY[i] as int
    {
      assert i == 0 || i == 1 || i == 2 || i == 3 || i == 4 || i == 5 || i == 6 || i == 7 ||
             i == 8 || i == 9 || i == 10 || i == 11 || i == 12 || i == 13 || i == 14 || i == 15 ||
             i == 16 || i == 17 || i == 18 || i == 19 || i == 20 || i == 21 || i == 22 || i == 23 ||
             i == 24;
    }
  }

  /** No signature byte is zero, so the zero fill left by a short read never matches. */
  lemma SignatureHasNoZeroByte()
    ensures |PKZIP| == 4
    ensures forall i :: 0 <= i < |PKZIP| ==> PKZIP[i] != 0
  {
    forall i | 0 <= i < |PKZIP|
      ensures PKZIP[i] != 0
    {
      assert i == 0 || i == 1 || i == 2 || i == 3;
    }
  }
}
