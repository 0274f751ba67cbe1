/**
  The pixel scramble of `encryptPixels`: the image is decoded to a raw byte
  buffer, every 4-byte step of the buffer has its first three bytes XORed
  with 120, 60 and 30, and the buffer is re-encoded with the decoded width,
  height and channel count. The stride is 4 whatever the channel count, so
  on 3-channel data the mask drifts across channels.
 */
module PixelScrambler {

  type Byte = bv8

  /** The XOR constants of offsets 0, 1 and 2 of each 4-byte step. */
  const Mask0: Byte := 120
  const Mask1: Byte := 60
  const Mask2: Byte := 30

  /** The mask the byte at absolute index `k` receives: it depends on `k mod 4`
      alone, and offset 3 is never written, which is XOR with 0. */
  function MaskFor(k: nat): (m: Byte) {
    if k % 4 == 0 then Mask0
    else if k % 4 == 1 then Mask1
    else if k % 4 == 2 then Mask2
    else 0
  }

  /** What the loop does to a buffer, byte by byte. */
  function Scrambled(data: seq<Byte>): (s: seq<Byte>) {
    seq(|data|, k requires 0 <= k < |data| => data[k] ^ MaskFor(k))
  }

  /** The masks of the four offsets of a step that starts at a multiple of 4. */
  lemma StepMasks(i: nat)
    requires i % 4 == 0
    ensures MaskFor(i) == Mask0 && MaskFor(i + 1) == Mask1
    ensures MaskFor(i + 2) == Mask2 && MaskFor(i + 3) == 0
  {
  }

  /** Which bytes the scramble changes and how: offsets 0, 1 and 2 of every
      4-byte step are XORed with 120, 60 and 30, offset 3 is kept. */
  lemma ScrambledSlots(data: seq<Byte>)
    ensures |Scrambled(data)| == |data|
    ensures forall k :: 0 <= k < |data| && k % 4 == 0 ==> Scrambled(data)[k] == data[k] ^ 120
    ensures forall k :: 0 <= k < |data| && k % 4 == 1 ==> Scrambled(data)[k] == data[k] ^ 60
    ensures forall k :: 0 <= k < |data| && k % 4 == 2 ==> Scrambled(data)[k] == data[k] ^ 30
    ensures forall k :: 0 <= k < |data| && k % 4 == 3 ==> Scrambled(data)[k] == data[k]
  {
  }

  /** `buf[idx] ^= m` on a Node Buffer: an index at or past the end is
      neither read nor created, so the write is dropped. */
  function XorAt(buf: seq<Byte>, idx: nat, m: Byte): (r: seq<Byte>)
    ensures |r| == |buf|
    ensures forall k :: 0 <= k < |buf| && k != idx ==> r[k] == buf[k]
    ensures idx < |buf| ==> r[idx] == buf[idx] ^ m
  {
    if idx < |buf| then buf[idx := buf[idx] ^ m] else buf
  }

  /** The loop of `encryptPixels` on the decoded bytes. It walks the buffer
      with stride 4 and XORs offsets 0, 1 and 2 with 120, 60 and 30; the
      writes at offsets 1 and 2 of a last, partial step fall past the end and
      are dropped, so the length is kept and only indices below it change. */
  method ScrambleBuffer(data: seq<Byte>) returns (out: seq<Byte>)
    ensures |out| == |data|
    ensures forall k :: 0 <= k < |data| && k % 4 == 0 ==> out[k] == data[k] ^ 120
    ensures forall k :: 0 <= k < |data| && k % 4 == 1 ==> out[k] == data[k] ^ 60
    ensures forall k :: 0 <= k < |data| && k % 4 == 2 ==> out[k] == data[k] ^ 30
    ensures forall k :: 0 <= k < |data| && k % 4 == 3 ==> out[k] == data[k]
    ensures out == Scrambled(data)
  {
    var buf := data;
    var i := 0;
    while i < |buf|
      invariant 0 <= i && i % 4 == 0
      invariant |buf| == |data|
      invariant forall k :: 0 <= k < i && k < |buf| ==> buf[k] == data[k] ^ MaskFor(k)
      invariant forall k :: i <= k < |buf| ==> buf[k] == data[k]
      decreases |buf| - i
    {
      StepMasks(i);
      buf := XorAt(buf, i, Mask0);
      buf := XorAt(buf, i + 1, Mask1);
      buf := XorAt(buf, i + 2, Mask2);
      assert i + 3 < |buf| ==> buf[i + 3] == data[i + 3] ^ MaskFor(i + 3);
      i := i + 4;
    }
    out := buf;
    ScrambledSlots(data);
  }

  /** What sharp reports about a decoded image. */
  datatype RawInfo = RawInfo(width: nat, height: nat, channels: nat)

  /** A decoded image: its raw bytes and the information to re-encode them. */
  datatype RawImage = RawImage(data: seq<Byte>, info: RawInfo)

  /** The buffer holds exactly width x height x channels bytes. */
  predicate WellFormed(img: RawImage) {
    |img.data| == img.info.width * img.info.height * img.info.channels
  }

  /** `encryptPixels` between decoding and re-encoding: the bytes are
      scrambled and the re-encode reuses the decoded width, height and
      channels, so a well-formed image stays well-formed. */
  method EncryptPixels(img: RawImage) returns (r: RawImage)
    ensures r.info == img.info
    ensures |r.data| == |img.data|
    ensures r.data == Scrambled(img.data)
    ensures WellFormed(r) <==> WellFormed(img)
  {
    var data := ScrambleBuffer(img.data);
    r := RawImage(data, img.info);
  }

  /** Scrambling twice restores every byte: the transform is its own inverse. */
  lemma ScrambleSelfInverse(data: seq<Byte>)
    ensures Scrambled(Scrambled(data)) == data
  {
    assert forall k :: 0 <= k < |data| ==> Scrambled(Scrambled(data))[k] == data[k];
  }

  /** Different buffers scramble to different buffers. */
  lemma ScrambleInjective(a: seq<Byte>, b: seq<Byte>)
    requires Scrambled(a) == Scrambled(b)
    ensures a == b
  {
    ScrambleSelfInverse(a);
    ScrambleSelfInverse(b);
  }

  /** The mask an RGB image's red bytes (indices 3p) receive cycles with p mod 4. */
  lemma RgbRedMask(k: nat)
    ensures k % 12 == 0 ==> MaskFor(k) == Mask0
    ensures k % 12 == 3 ==> MaskFor(k) == 0
    ensures k % 12 == 6 ==> MaskFor(k) == Mask2
    ensures k % 12 == 9 ==> MaskFor(k) == Mask1
  {
    assert k == 12 * (k / 12) + k % 12;
    assert k % 4 == (k % 12) % 4;
  }

  /** The mask a byte gets depends only on its index modulo 4, whatever the
      image's channel count. On 3-channel data, where pixel p's red byte is
      at index 3p, the masks therefore drift across channels: red bytes get
      120, nothing, 30 and 60 as p mod 4 is 0, 1, 2 and 3, so the second
      pixel's red is never touched and its green gets the red mask. */
  lemma RgbMaskDrift(data: seq<Byte>)
    ensures forall k :: 0 <= k < |data| && k % 12 == 0 ==> Scrambled(data)[k] == data[k] ^ 120
    ensures forall k :: 0 <= k < |data| && k % 12 == 3 ==> Scrambled(data)[k] == data[k]
    ensures forall k :: 0 <= k < |data| && k % 12 == 6 ==> Scrambled(data)[k] == data[k] ^ 30
    ensures forall k :: 0 <= k < |data| && k % 12 == 9 ==> Scrambled(data)[k] == data[k] ^ 60
    ensures |data| > 4 ==> Scrambled(data)[3] == data[3] && Scrambled(data)[4] == data[4] ^ 120
  {
    forall k: nat | k < |data|
      ensures Scrambled(data)[k] == data[k] ^ MaskFor(k)
    {
      RgbRedMask(k);
    }
  }
}
