/**
 * The positional XOR transform applied to the entries of plain Light.vn
 * containers. It is its own inverse, so the same operation decodes and
 * encodes. Transform is the specification on sequences; Xor is the
 * in-place array operation of the tool, proved to compute it.
 */
module Codec {
  import opened Keys

  /** Size of the header window of a long buffer, and the length below which a buffer is short. */
  const HEADER_SIZE: nat := 100

  /** Size of the footer window of a long buffer: 99, one less than the header. */
  const FOOTER_SIZE: nat := 99

  /**
   * `b` with `key[(j - start) % |key|]` XORed into every byte j of the
   * window [start, start + count); the bytes outside the window are kept.
   */
  function XorWindow(b: seq<bv8>, start: nat, count: nat, key: seq<bv8>): (r: seq<bv8>)
    requires start + count <= |b| && |key| > 0
    ensures |r| == |b|
  {
    seq(|b|, j requires 0 <= j < |b| =>
      if start <= j < start + count then b[j] ^ key[(j - start) % |key|] else b[j])
  }

  /** The long-buffer transform: `headKey` over the first 100 bytes, then `footKey` over the last 99. */
  function TwoWindows(b: seq<bv8>, headKey: seq<bv8>, footKey: seq<bv8>): (r: seq<bv8>)
    requires |b| >= HEADER_SIZE && |headKey| > 0 && |footKey| > 0
    ensures |r| == |b|
  {
    XorWindow(XorWindow(b, 0, HEADER_SIZE, headKey), |b| - FOOTER_SIZE, FOOTER_SIZE, footKey)
  }

  /**
   * The transform: nothing for an empty buffer; REVERSED_KEY over every
   * byte of a buffer shorter than 100 bytes; otherwise KEY over the first
   * 100 bytes, then REVERSED_KEY over the last 99 bytes, in that order.
   */
  function Transform(b: seq<bv8>): (r: seq<bv8>) {
    if |b| == 0 then b
    else if |b| < HEADER_SIZE then XorWindow(b, 0, |b|, REVERSED_KEY)
    else TwoWindows(b, KEY, REVERSED_KEY)
  }

  /** The transform keeps the length, and leaves an empty buffer as it is. */
  lemma TransformKeepsLength(b: seq<bv8>)
    ensures |Transform(b)| == |b|
    ensures |b| == 0 ==> Transform(b) == b
  {
  }

  /** A buffer of 1 to 99 bytes has every byte XORed with REVERSED_KEY at its own position. */
  lemma TransformShort(b: seq<bv8>)
    requires 0 < |b| < HEADER_SIZE
    ensures |Transform(b)| == |b|
    ensures forall i :: 0 <= i < |b| ==> Transform(b)[i] == b[i] ^ REVERSED_KEY[i % KEY_LENGTH]
  {
  }

  /** The keystream byte a window pass XORs into index j, zero outside the window. */
  function WindowMask(start: nat, count: nat, key: seq<bv8>, j: nat): (r: bv8)
    requires |key| > 0
  {
    if start <= j < start + count then key[(j - start) % |key|] else 0
  }

  /** The byte a window pass leaves at index j. */
  lemma XorWindowAt(b: seq<bv8>, start: nat, count: nat, key: seq<bv8>, j: nat)
    requires start + count <= |b| && |key| > 0 && j < |b|
    ensures XorWindow(b, start, count, key)[j] == b[j] ^ WindowMask(start, count, key, j)
  {
  }

  /** The byte the long-buffer transform leaves at index j: both keystreams XORed in. */
  lemma TwoWindowsAt(b: seq<bv8>, headKey: seq<bv8>, footKey: seq<bv8>, j: nat)
    requires |b| >= HEADER_SIZE && |headKey| > 0 && |footKey| > 0 && j < |b|
    ensures |TwoWindows(b, headKey, footKey)| == |b|
    ensures TwoWindows(b, headKey, footKey)[j] ==
      b[j] ^ WindowMask(0, HEADER_SIZE, headKey, j) ^ WindowMask(|b| - FOOTER_SIZE, FOOTER_SIZE, footKey, j)
  {
    var head := XorWindow(b, 0, HEADER_SIZE, headKey);
    XorWindowAt(b, 0, HEADER_SIZE, headKey, j);
    XorWindowAt(head, |b| - FOOTER_SIZE, FOOTER_SIZE, footKey, j);
  }

  /**
   * A buffer of n >= 100 bytes: a header byte j < 100 outside the footer is
   * XORed with the head key, a footer byte j >= n - 99 outside the header
   * with the foot key from the footer's start, a byte in both with both,
   * and the bytes in between are kept.
   */
  lemma TwoWindowsRegions(b: seq<bv8>, headKey: seq<bv8>, footKey: seq<bv8>)
    requires |b| >= HEADER_SIZE && |headKey| > 0 && |footKey| > 0
    ensures |TwoWindows(b, headKey, footKey)| == |b|
    ensures forall j :: 0 <= j < HEADER_SIZE && j < |b| - FOOTER_SIZE ==>
      TwoWindows(b, headKey, footKey)[j] == b[j] ^ headKey[j % |headKey|]
    ensures forall j :: HEADER_SIZE <= j < |b| && |b| - FOOTER_SIZE <= j ==>
      TwoWindows(b, headKey, footKey)[j] == b[j] ^ footKey[(j - (|b| - FOOTER_SIZE)) % |footKey|]
    ensures forall j :: |b| - FOOTER_SIZE <= j < HEADER_SIZE ==>
      TwoWindows(b, headKey, footKey)[j] == b[j] ^ headKey[j % |headKey|] ^ footKey[(j - (|b| - FOOTER_SIZE)) % |footKey|]
    ensures forall j :: HEADER_SIZE <= j < |b| - FOOTER_SIZE ==> TwoWindows(b, headKey, footKey)[j] == b[j]
  {
    TwoWindowsAt(b, headKey, footKey, 0);
    forall j | 0 <= j < |b|
      ensures TwoWindows(b, headKey, footKey)[j] ==
        b[j] ^ WindowMask(0, HEADER_SIZE, headKey, j) ^ WindowMask(|b| - FOOTER_SIZE, FOOTER_SIZE, footKey, j)
    {
      TwoWindowsAt(b, headKey, footKey, j);
    }
  }

  /**
   * A buffer of n >= 100 bytes: a header byte j < 100 outside the footer is
   * XORed with KEY[j % 25], a footer byte j >= n - 99 outside the header
   * with REVERSED_KEY[(j - (n - 99)) % 25], and the bytes in between are kept.
   */
  lemma TransformLong(b: seq<bv8>)
    requires |b| >= HEADER_SIZE
    ensures |Transform(b)| == |b|
    ensures forall j :: 0 <= j < HEADER_SIZE && j < |b| - FOOTER_SIZE ==>
      Transform(b)[j] == b[j] ^ KEY[j % KEY_LENGTH]
    ensures forall j :: HEADER_SIZE <= j < |b| && |b| - FOOTER_SIZE <= j ==>
      Transform(b)[j] == b[j] ^ REVERSED_KEY[(j - (|b| - FOOTER_SIZE)) % KEY_LENGTH]
    ensures forall j :: HEADER_SIZE <= j < |b| - FOOTER_SIZE ==> Transform(b)[j] == b[j]
  {
    ReversedKeyMirrorsKey();
    TwoWindowsRegions(b, KEY, REVERSED_KEY);
  }

  /**
   * For 100 <= n <= 198 the windows overlap on [n - 99, 100): a byte there
   * is XORed with both keystreams, each at its own alignment.
   */
  lemma TransformOverlap(b: seq<bv8>)
    requires HEADER_SIZE <= |b| <= HEADER_SIZE + FOOTER_SIZE - 1
    ensures |Transform(b)| == |b|
    ensures forall j :: |b| - FOOTER_SIZE <= j < HEADER_SIZE ==>
      Transform(b)[j] == b[j] ^ KEY[j % KEY_LENGTH] ^ REVERSED_KEY[(j - (|b| - FOOTER_SIZE)) % KEY_LENGTH]
  {
    ReversedKeyMirrorsKey();
    TwoWindowsRegions(b, KEY, REVERSED_KEY);
  }

  /** XORing the same window twice restores the buffer. */
  lemma XorWindowTwice(b: seq<bv8>, start: nat, count: nat, key: seq<bv8>)
    requires start + count <= |b| && |key| > 0
    ensures XorWindow(XorWindow(b, start, count, key), start, count, key) == b
  {
    var once := XorWindow(b, start, count, key);
    var twice := XorWindow(once, start, count, key);
    forall j | 0 <= j < |b|
      ensures twice[j] == b[j]
    {
      if start <= j < start + count {
        var k := key[(j - start) % |key|];
        assert twice[j] == (b[j] ^ k) ^ k;
      }
    }
  }

  /** The long-buffer transform is its own inverse, whatever the keys. */
  lemma TwoWindowsTwice(b: seq<bv8>, headKey: seq<bv8>, footKey: seq<bv8>)
    requires |b| >= HEADER_SIZE && |headKey| > 0 && |footKey| > 0
    ensures TwoWindows(TwoWindows(b, headKey, footKey), headKey, footKey) == b
  {
    var n := |b|;
    var once := TwoWindows(b, headKey, footKey);
    TwoWindowsAt(b, headKey, footKey, 0);
    TwoWindowsAt(once, headKey, footKey, 0);
    forall j | 0 <= j < n
      ensures TwoWindows(once, headKey, footKey)[j] == b[j]
    {
      var m1, m2 := WindowMask(0, HEADER_SIZE, headKey, j), WindowMask(n - FOOTER_SIZE, FOOTER_SIZE, footKey, j);
      TwoWindowsAt(b, headKey, footKey, j);
      TwoWindowsAt(once, headKey, footKey, j);
      assert ((b[j] ^ m1 ^ m2) ^ m1) ^ m2 == b[j];
    }
  }

  /** Decoding is encoding: applying the transform twice gives back the buffer, for every length. */
  lemma TransformInvolutive(b: seq<bv8>)
    ensures Transform(Transform(b)) == b
  {
    var n := |b|;
    if n == 0 {
    } else if n < HEADER_SIZE {
      XorWindowTwice(b, 0, n, REVERSED_KEY);
    } else {
      TwoWindowsTwice(b, KEY, REVERSED_KEY);
      TwoWindowsAt(b, KEY, REVERSED_KEY, 0);
    }
  }

  /** One XOR loop of the tool: `key[i % |key|]` into `buffer[start + i]` for i in [0, count). */
  method XorWindowInPlace(buffer: array<bv8>, start: nat, count: nat, key: seq<bv8>)
    requires start + count <= buffer.Length && |key| > 0
    modifies buffer
    ensures buffer[..] == XorWindow(old(buffer[..]), start, count, key)
  {
    for i := 0 to count
      invariant forall j :: start <= j < start + i ==> buffer[j] == old(buffer[j]) ^ key[(j - start) % |key|]
      invariant forall j :: 0 <= j < start || start + i <= j < buffer.Length ==> buffer[j] == old(buffer[j])
    {
      buffer[start + i] := buffer[start + i] ^ key[i % |key|];
    }
  }

  /** The header pass and then the footer pass, on a buffer of at least 100 bytes. */
  method XorTwoWindowsInPlace(buffer: array<bv8>, headKey: seq<bv8>, footKey: seq<bv8>)
    requires buffer.Length >= HEADER_SIZE && |headKey| > 0 && |footKey| > 0
    modifies buffer
    ensures buffer[..] == TwoWindows(old(buffer[..]), headKey, footKey)
  {
    XorWindowInPlace(buffer, 0, HEADER_SIZE, headKey);
    XorWindowInPlace(buffer, buffer.Length - FOOTER_SIZE, FOOTER_SIZE, footKey);
  }

  /**
   * XOR(byte[]) of the tool: transforms `buffer` in place and hands the
   * same array back.
   */
  method Xor(buffer: array<bv8>) returns (r: array<bv8>)
    modifies buffer
    ensures r == buffer
    ensures buffer[..] == Transform(old(buffer[..]))
  {
    var n := buffer.Length;
    if n < HEADER_SIZE {
      if n <= 0 {
        return buffer;
      }
      XorWindowInPlace(buffer, 0, n, REVERSED_KEY);
    } else {
      XorTwoWindowsInPlace(buffer, KEY, REVERSED_KEY);
    }
    return buffer;
  }
}
