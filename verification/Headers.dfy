/** The two header layouts byte by byte, and what split asks of a file
    (package/alt-f-utils/alt-f-utils-0.1.11/dns323-fw.c). */
module Headers {
  import opened Wrappers
  import opened Firmware

  // ---------- words ----------

  /** The byte at the lowest address counts least. */
  lemma WordOfOne(b: byte)
    ensures WordAt([b, 0, 0, 0], 0) == b && WordAt([0, b, 0, 0], 0) == b * 0x100
    ensures WordAt([0, 0, b, 0], 0) == b * 0x1_0000 && WordAt([0, 0, 0, b], 0) == b * 0x100_0000
  {
  }

  // the k-th binary digit
  function Bit(a: nat, k: nat): nat {
    if k == 0 then a % 2 else Bit(a / 2, k - 1)
  }

  lemma {:induction false} XorBitsAt(a: nat, b: nat, n: nat, k: nat)
    requires k < n
    ensures Bit(XorBits(a, b, n), k) == if Bit(a, k) == Bit(b, k) then 0 else 1
  {
    HalfOfXor(a, b, n);
    if k > 0 {
      XorBitsAt(a / 2, b / 2, n - 1, k - 1);
    }
  }

  /** A checksum is taken bit by bit. */
  lemma XorMeans(a: uint32, b: uint32, k: nat)
    requires k < 32
    ensures Bit(Xor(a, b), k) == if Bit(a, k) == Bit(b, k) then 0 else 1
  {
    XorBitsAt(a, b, 32, k);
  }

  // ---------- layouts ----------

  /** The signature: the name of the box between 0x55 0xAA and the same again. */
  lemma MagicIs(t: nat, k: nat)
    requires t < |BOXES|
    ensures Magic(t)[0] == 0x55 && Magic(t)[1] == 0xAA && Magic(t)[10] == 0x55 && Magic(t)[11] == 0xAA
    ensures k < |BOXES[t].name| && k < 8 ==> Magic(t)[2 + k] == BOXES[t].name[k] as int % 0x100
    ensures |BOXES[t].name| == 7 ==> Magic(t)[9] == 0
  {
    var name := BOXES[t].name;
    assert |name| == 7 || |name| == 8;
    hide BOXES;
  }

  /** Where the fields stand in a header of 64 bytes. */
  lemma ShortLayout(h: Header)
    requires h.box < |BOXES| && h.size == 64 && h.sqimage == Part(0, 0, 0)
    ensures var s := HeaderBytes(h);
      && |s| == 64
      && WordAt(s, 0) == h.kernel.off && WordAt(s, 4) == h.kernel.len
      && WordAt(s, 8) == h.initramfs.off && WordAt(s, 12) == h.initramfs.len
      && WordAt(s, 16) == h.defaults.off && WordAt(s, 20) == h.defaults.len
      && WordAt(s, 24) == h.kernel.sum && WordAt(s, 28) == h.initramfs.sum && WordAt(s, 32) == h.defaults.sum
      && s[36..48] == Magic(h.box)
      && s[48] == h.ids.product && s[49] == h.ids.custom && s[50] == h.ids.model && s[51] == h.ids.sub
      && s[52] == h.ids.version && WordAt(s, 60) == h.next
  {
    FieldsAt(h);
    var s, ws := HeaderBytes(h), FieldWords(h);
    hide HeaderBytes, WordAt, Magic;
    assert WordAt(s, 4 * 1) == ws[1] && WordAt(s, 4 * 2) == ws[2] && WordAt(s, 4 * 3) == ws[3];
    assert WordAt(s, 4 * 4) == ws[4] && WordAt(s, 4 * 5) == ws[5] && WordAt(s, 4 * 6) == ws[6];
    assert WordAt(s, 4 * 7) == ws[7] && WordAt(s, 4 * 8) == ws[8];
  }

  /** And in one of 128 bytes. */
  lemma LongLayout(h: Header)
    requires h.box < |BOXES| && h.size == 128
    ensures var s := HeaderBytes(h);
      && |s| == 128
      && WordAt(s, 0) == h.kernel.off && WordAt(s, 4) == h.kernel.len
      && WordAt(s, 8) == h.initramfs.off && WordAt(s, 12) == h.initramfs.len
      && WordAt(s, 16) == h.sqimage.off && WordAt(s, 20) == h.sqimage.len
      && WordAt(s, 24) == h.defaults.off && WordAt(s, 28) == h.defaults.len
      && WordAt(s, 32) == h.kernel.sum && WordAt(s, 36) == h.initramfs.sum && WordAt(s, 40) == h.sqimage.sum
      && WordAt(s, 44) == h.defaults.sum
      && s[48..60] == Magic(h.box)
      && s[60] == h.ids.product && s[61] == h.ids.custom && s[62] == h.ids.model && s[63] == h.ids.sub
      && s[64] == h.ids.version && WordAt(s, 124) == h.next
  {
    FieldsAt(h);
    var s, ws := HeaderBytes(h), FieldWords(h);
    hide HeaderBytes, WordAt, Magic;
    assert WordAt(s, 4 * 1) == ws[1] && WordAt(s, 4 * 2) == ws[2] && WordAt(s, 4 * 3) == ws[3];
    assert WordAt(s, 4 * 4) == ws[4] && WordAt(s, 4 * 5) == ws[5] && WordAt(s, 4 * 6) == ws[6];
    assert WordAt(s, 4 * 7) == ws[7] && WordAt(s, 4 * 8) == ws[8] && WordAt(s, 4 * 9) == ws[9];
    assert WordAt(s, 4 * 10) == ws[10] && WordAt(s, 4 * 11) == ws[11];
  }

  // by the place of each word among the fields
  lemma FieldsAt(h: Header)
    requires h.box < |BOXES| && (h.size == 64 || h.size == 128)
    ensures var s, ws := HeaderBytes(h), FieldWords(h);
      && (forall i :: 0 <= i < |ws| ==> WordAt(s, 4 * i) == ws[i])
      && s[4 * |ws|..4 * |ws| + 12] == Magic(h.box)
      && WordAt(s, h.size - 4) == h.next
      && var at := 4 * |ws| + 12;
      && s[at] == h.ids.product && s[at + 1] == h.ids.custom && s[at + 2] == h.ids.model && s[at + 3] == h.ids.sub
      && s[at + 4] == h.ids.version
  {
    var ws := FieldWords(h);
    var reserved := if h.size == 64 then 7 else 59;
    var tail := Magic(h.box) + (IdBytes(h.ids) + Zeros(reserved) + WordBytes(h.next));
    var s := HeaderBytes(h);
    assert s == WordsBytes(ws) + tail;
    hide WordAt, WordsBytes, Magic, Zeros, WordBytes, HeaderBytes;
    assert |WordBytes(h.next)| == 4 && |Zeros(reserved)| == reserved;
    forall i | 0 <= i < |ws|
      ensures WordAt(s, 4 * i) == ws[i]
    {
      FieldAt(ws, tail, i);
    }
    assert s[h.size - 4..h.size] == WordBytes(h.next);
    WordRoundTrip(h.next, s, h.size - 4);
    var ids := s[4 * |ws| + 12..4 * |ws| + 17];
    assert ids == IdBytes(h.ids);
    assert forall k :: 0 <= k < 5 ==> ids[k] == s[4 * |ws| + 12 + k];
  }

  // ---------- what split asks of a file ----------

  /** A component that is given out: its bytes are those of the file, as far as they are there,
      and its checksum is the one the header has, unless that is 0. */
  ghost predicate GivenOut(file: Bytes, off: nat, len: nat, sum: nat, out: Bytes) {
    && (off + len <= |file| ==> out == file[off..off + len])
    && (sum == 0 || Checksum(out) == sum)
  }

  // a known signature stands at this place
  ghost predicate Signed(file: Bytes, at: nat) {
    at + 12 <= |file| && exists t :: 0 <= t < |BOXES| && file[at..at + 12] == Magic(t)
  }

  ghost predicate UbootAt(file: Bytes, off: nat) {
    off + 4 <= |file| && file[off] == 0x27 && file[off + 1] == 0x05 && file[off + 2] == 0x19 && file[off + 3] == 0x56
  }

  /** Whatever is split has a signature in one of the two places, u-boot images where its header
      says that kernel and initramfs are, and checksums that are met. */
  lemma SplitAsks(file: Bytes)
    requires SplitOf(file).Some?
    ensures |file| >= 128 && (Signed(file, 36) || Signed(file, 48))
    ensures var p := SplitOf(file).value;
      && UbootAt(file, WordAt(file, 0)) && UbootAt(file, WordAt(file, 8))
      && (Signed(file, 36) ==>
          && GivenOut(file, WordAt(file, 0), WordAt(file, 4), WordAt(file, 24), p.kernel)
          && GivenOut(file, WordAt(file, 8), WordAt(file, 12), WordAt(file, 28), p.initramfs)
          && p.sqimage == None
          && GivenOut(file, WordAt(file, 16), WordAt(file, 20), WordAt(file, 32), p.defaults))
      && (!Signed(file, 36) ==>
          && GivenOut(file, WordAt(file, 0), WordAt(file, 4), WordAt(file, 32), p.kernel)
          && GivenOut(file, WordAt(file, 8), WordAt(file, 12), WordAt(file, 36), p.initramfs)
          && p.sqimage.Some?
          && GivenOut(file, WordAt(file, 16), WordAt(file, 20), WordAt(file, 40), p.sqimage.value)
          && GivenOut(file, WordAt(file, 24), WordAt(file, 28), WordAt(file, 44), p.defaults))
  {
    HeaderIs(file);
    var h := CheckSig(file[..128]).value;
    hide Checksum, Copied, Magic, BOXES, WordAt, CheckSig, Signed;
    Extracted(file, h.kernel);
    Extracted(file, h.initramfs);
    Extracted(file, h.sqimage);
    Extracted(file, h.defaults);
    UbootIff(file, h.kernel.off);
    UbootIff(file, h.initramfs.off);
  }

  /** A component that is there, with the checksum that the header has, unless that is 0. */
  ghost predicate Sound(file: Bytes, off: nat, len: nat, sum: nat) {
    off + len <= |file| && (sum == 0 || Checksum(file[off..off + len]) == sum)
  }

  /** And every file with all of these is split. */
  lemma IsSplit(file: Bytes)
    requires |file| >= 128 && (Signed(file, 36) || Signed(file, 48))
    requires UbootAt(file, WordAt(file, 0)) && UbootAt(file, WordAt(file, 8))
    requires Signed(file, 36) ==>
      && Sound(file, WordAt(file, 0), WordAt(file, 4), WordAt(file, 24))
      && Sound(file, WordAt(file, 8), WordAt(file, 12), WordAt(file, 28))
      && Sound(file, WordAt(file, 16), WordAt(file, 20), WordAt(file, 32))
    requires !Signed(file, 36) ==>
      && Sound(file, WordAt(file, 0), WordAt(file, 4), WordAt(file, 32))
      && Sound(file, WordAt(file, 8), WordAt(file, 12), WordAt(file, 36))
      && Sound(file, WordAt(file, 16), WordAt(file, 20), WordAt(file, 40))
      && Sound(file, WordAt(file, 24), WordAt(file, 28), WordAt(file, 44))
    ensures SplitOf(file).Some?
  {
    HeaderIs(file);
    var h := CheckSig(file[..128]).value;
    hide Checksum, Copied, Magic, BOXES, WordAt, CheckSig, Signed;
    SoundExtracted(file, h.kernel);
    SoundExtracted(file, h.initramfs);
    SoundExtracted(file, h.sqimage);
    SoundExtracted(file, h.defaults);
    UbootIff(file, h.kernel.off);
    UbootIff(file, h.initramfs.off);
  }

  // the header, by the words of the file
  lemma HeaderIs(file: Bytes)
    requires |file| >= 128
    ensures var c := CheckSig(file[..128]);
      && (c.Some? <==> Signed(file, 36) || Signed(file, 48))
      && (c.Some? ==>
          var h := c.value;
          && h.kernel.off == WordAt(file, 0) && h.kernel.len == WordAt(file, 4)
          && h.initramfs.off == WordAt(file, 8) && h.initramfs.len == WordAt(file, 12)
          && (Signed(file, 36) ==>
              && h.size == 64 && h.kernel.sum == WordAt(file, 24) && h.initramfs.sum == WordAt(file, 28)
              && h.defaults == Part(WordAt(file, 16), WordAt(file, 20), WordAt(file, 32)))
          && (!Signed(file, 36) ==>
              && h.size == 128 && h.kernel.sum == WordAt(file, 32) && h.initramfs.sum == WordAt(file, 36)
              && h.sqimage == Part(WordAt(file, 16), WordAt(file, 20), WordAt(file, 40))
              && h.defaults == Part(WordAt(file, 24), WordAt(file, 28), WordAt(file, 44))))
  {
    var hd := file[..128];
    SignedIff(file, 36);
    SignedIff(file, 48);
    assert hd[36..48] == file[36..48] && hd[48..60] == file[48..60];
    WordsOfHead(file, hd);
    hide Signed, Magic, BOXES, WordAt;
  }

  lemma SignedIff(file: Bytes, at: nat)
    requires at + 12 <= |file|
    ensures Signed(file, at) <==> FindBox(file[at..at + 12], 0).Some?
  {
    hide Magic, BOXES;
    var r := FindBox(file[at..at + 12], 0);
  }

  lemma WordsOfHead(file: Bytes, hd: Bytes)
    requires |file| >= 128 && hd == file[..128]
    ensures forall i: nat :: i + 4 <= 128 ==> WordAt(hd, i) == WordAt(file, i)
  {
  }

  lemma Extracted(file: Bytes, p: Part)
    ensures Extract(file, p).Some? ==> GivenOut(file, p.off, p.len, p.sum, Extract(file, p).value)
  {
    hide Checksum, Copied;
    if p.off + p.len <= |file| {
      CopiedWhole(file, p.off, p.len);
    }
  }

  lemma SoundExtracted(file: Bytes, p: Part)
    ensures Sound(file, p.off, p.len, p.sum) ==> Extract(file, p).Some?
  {
    hide Checksum, Copied;
    if p.off + p.len <= |file| {
      CopiedWhole(file, p.off, p.len);
    }
  }

  lemma UbootIff(file: Bytes, off: nat)
    ensures IsUboot(file, off) <==> UbootAt(file, off)
  {
    if IsUboot(file, off) {
      var s := file[off..off + 4];
      assert s[0] == file[off] && s[1] == file[off + 1] && s[2] == file[off + 2] && s[3] == file[off + 3];
    }
    if UbootAt(file, off) {
      assert file[off..off + 4] == UBOOT;
    }
  }

  /** Where the file ends inside the first block, zeros fill up that block, or what was asked
      for. */
  lemma CopiedShort(src: Bytes, off: nat, sz: nat)
    requires off < |src| && |src| - off <= (if sz < 0x10000 then sz else 0x10000)
    ensures Copied(src, off, sz) == src[off..] + Zeros((if sz < 0x10000 then sz else 0x10000) - (|src| - off))
  {
    var k := if sz < 0x10000 then sz else 0x10000;
    var n := |src| - off;
    NothingCopied(src);
    CopiedStep(src, off, sz);
    hide Copied;
    assert src[off..off + n] == src[off..];
  }

  // ---------- what merge asks of its input ----------

  /** Kernel and initramfs have to be u-boot images, and no part may be longer than its box
      allows; a file-system image is only for boxes with the longer header. */
  lemma MergeAsks(i: Input)
    ensures Mergeable(i) <==>
      && i.box < |BOXES| && UbootAt(i.kernel, 0) && UbootAt(i.initramfs, 0)
      && |i.kernel| <= BOXES[i.box].kernelMax && |i.initramfs| <= BOXES[i.box].initramfsMax
      && (BOXES[i.box].size == 128 && i.sqimage.Some? ==> |i.sqimage.value| <= BOXES[i.box].sqimageMax)
      && (i.defaults.Some? ==> |i.defaults.value| <= BOXES[i.box].defaultsMax)
  {
    UbootIff(i.kernel, 0);
    UbootIff(i.initramfs, 0);
    hide BOXES;
  }

  /** What the file holds: every part where the header says, with its length and checksum. */
  lemma ImageHolds(i: Input)
    requires Mergeable(i)
    ensures var h, file := HeaderOf(i), Image(i); var d := if i.defaults.Some? then i.defaults.value else [];
      && h.kernel.off == BOXES[i.box].size && h.kernel.len == |i.kernel| && h.kernel.sum == Checksum(i.kernel)
      && h.initramfs.len == |i.initramfs| && h.initramfs.sum == Checksum(i.initramfs)
      && h.defaults.len == |d| && h.defaults.sum == Checksum(d)
      && (BOXES[i.box].size == 128 && i.sqimage.Some? ==>
          h.sqimage.len == |i.sqimage.value| && h.sqimage.sum == Checksum(i.sqimage.value))
      && |file| == h.defaults.off + |d| && h.ids == i.ids && h.next == 0
      && file[h.kernel.off..h.kernel.off + h.kernel.len] == i.kernel
      && file[h.initramfs.off..h.initramfs.off + h.initramfs.len] == i.initramfs
      && file[h.defaults.off..h.defaults.off + h.defaults.len] == d
      && file[..BOXES[i.box].size] == HeaderBytes(h)
  {
    HeaderHolds(i);
    assert OrEmpty(i.defaults) == if i.defaults.Some? then i.defaults.value else [];
    assert BOXES[i.box].size == 128 && i.sqimage.Some? ==> SqimageOf(i) == i.sqimage.value;
    hide *;
    ImageSlices(i, HeaderOf(i));
  }

  lemma HeaderHolds(i: Input)
    requires Mergeable(i)
    ensures var h := HeaderOf(i); var k, r, q, d := i.kernel, i.initramfs, SqimageOf(i), OrEmpty(i.defaults);
      && h.size == BOXES[i.box].size && h.ids == i.ids && h.next == 0
      && h.kernel == Part(h.size, |k|, Checksum(k)) && h.initramfs == Part(h.size + |k|, |r|, Checksum(r))
      && (h.size == 128 ==> h.sqimage == Part(h.size + |k| + |r|, |q|, Checksum(q)))
      && h.defaults == Part(h.size + |k| + |r| + |q|, |d|, Checksum(d))
  {
    HeaderParts(i);
    assert HeaderOf(i).ids == i.ids && HeaderOf(i).next == 0;
    hide BOXES, Checksum, HeaderOf, SqimageOf, OrEmpty;
  }

  lemma ImageSlices(i: Input, h: Header)
    requires Mergeable(i) && h == HeaderOf(i)
    ensures var k, r, q, d := i.kernel, i.initramfs, SqimageOf(i), OrEmpty(i.defaults); var file := Image(i);
      && |file| == h.size + |k| + |r| + |q| + |d| && file[..h.size] == HeaderBytes(h)
      && file[h.size..h.size + |k|] == k && file[h.size + |k|..h.size + |k| + |r|] == r
      && file[h.size + |k| + |r| + |q|..h.size + |k| + |r| + |q| + |d|] == d
  {
    ImageBytes(i);
    hide *;
    SlicesBehind(HeaderBytes(h), h.size, i.kernel, i.initramfs, SqimageOf(i), OrEmpty(i.defaults), Image(i));
  }

  lemma SlicesBehind(a: Bytes, n: nat, k: Bytes, r: Bytes, q: Bytes, d: Bytes, file: Bytes)
    requires |a| == n && file == a + (k + r + q + d)
    ensures |file| == n + |k| + |r| + |q| + |d| && file[..n] == a
    ensures file[n..n + |k|] == k && file[n + |k|..n + |k| + |r|] == r
    ensures file[n + |k| + |r| + |q|..n + |k| + |r| + |q| + |d|] == d
  {
    SlicesOf(a, k, r, q, d);
  }
}
