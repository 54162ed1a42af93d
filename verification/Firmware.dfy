/** The firmware container tool: merge and split
    (package/alt-f-utils/alt-f-utils-0.1.11/dns323-fw.c). Files are byte sequences; a
    uint32_t is kept as its four bytes in the order in which they stand in memory and in
    the file, little-endian as on the devices. */
module Firmware {
  import opened Wrappers

  type byte = b: int | 0 <= b < 0x100
  type Bytes = seq<byte>

  type uint32 = n: int | 0 <= n < 0x1_0000_0000

  const BLOCK_SIZE := 0x10000

  // ---------- words ----------

  function WordAt(s: Bytes, i: nat): uint32
    requires i + 4 <= |s|
  {
    var b0: int, b1: int, b2: int, b3: int := s[i], s[i + 1], s[i + 2], s[i + 3];
    b0 + b1 * 0x100 + b2 * 0x1_0000 + b3 * 0x100_0000
  }

  function WordBytes(n: uint32): (s: Bytes)
    ensures |s| == 4
  {
    [n % 0x100, n / 0x100 % 0x100, n / 0x1_0000 % 0x100, n / 0x100_0000]
  }

  lemma WordRoundTrip(n: uint32, s: Bytes, i: nat)
    requires i + 4 <= |s| && s[i..i + 4] == WordBytes(n)
    ensures WordAt(s, i) == n
  {
    var t := s[i..i + 4];
    assert s[i] == t[0] && s[i + 1] == t[1] && s[i + 2] == t[2] && s[i + 3] == t[3];
    assert n / 0x1_0000 == n / 0x100 / 0x100 && n / 0x100_0000 == n / 0x1_0000 / 0x100;
  }

  /** A word and its four bytes determine each other. */
  lemma WordOfBytes(s: Bytes, i: nat)
    requires i + 4 <= |s|
    ensures WordBytes(WordAt(s, i)) == s[i..i + 4]
  {
    var b0: int, b1: int, b2: int, b3: int := s[i], s[i + 1], s[i + 2], s[i + 3];
    var n := WordAt(s, i);
    assert n / 0x100 == b1 + b2 * 0x100 + b3 * 0x1_0000;
    assert n / 0x1_0000 == b2 + b3 * 0x100;
    assert n / 0x100_0000 == b3;
  }

  function Pow2(n: nat): nat {
    if n == 0 then 1 else 2 * Pow2(n - 1)
  }

  lemma {:induction false} Pow2Sum(m: nat, n: nat)
    ensures Pow2(m + n) == Pow2(m) * Pow2(n)
  {
    if m > 0 {
      Pow2Sum(m - 1, n);
    }
  }

  lemma Pow2Of32()
    ensures Pow2(32) == 0x1_0000_0000
  {
    Pow2Sum(2, 2);
    Pow2Sum(4, 4);
    Pow2Sum(8, 8);
    Pow2Sum(16, 16);
  }

  type bit = b: int | 0 <= b < 2

  function XorBit(a: bit, b: bit): bit {
    if a == b then 0 else 1
  }

  // the bitwise ^ of two numbers of n bits
  function XorBits(a: nat, b: nat, n: nat): nat {
    if n == 0 then 0 else 2 * XorBits(a / 2, b / 2, n - 1) + XorBit(a % 2, b % 2)
  }

  lemma {:induction false} XorBitsBound(a: nat, b: nat, n: nat)
    ensures XorBits(a, b, n) < Pow2(n)
  {
    if n > 0 {
      XorBitsBound(a / 2, b / 2, n - 1);
    }
  }

  function Xor(a: uint32, b: uint32): uint32 {
    XorBitsBound(a, b, 32);
    Pow2Of32();
    XorBits(a, b, 32)
  }

  lemma HalfOfXor(a: nat, b: nat, n: nat)
    requires n > 0
    ensures XorBits(a, b, n) / 2 == XorBits(a / 2, b / 2, n - 1) && XorBits(a, b, n) % 2 == XorBit(a % 2, b % 2)
  {
  }

  lemma {:induction false} XorBitsAssoc(a: nat, b: nat, c: nat, n: nat)
    ensures XorBits(XorBits(a, b, n), c, n) == XorBits(a, XorBits(b, c, n), n)
  {
    if n > 0 {
      HalfOfXor(a, b, n);
      HalfOfXor(b, c, n);
      XorBitsAssoc(a / 2, b / 2, c / 2, n - 1);
    }
  }

  lemma {:induction false} XorBitsZero(a: nat, n: nat)
    requires a < Pow2(n)
    ensures XorBits(0, a, n) == a && XorBits(a, 0, n) == a
  {
    if n > 0 {
      XorBitsZero(a / 2, n - 1);
    }
  }

  lemma {:induction false} XorBitsSelf(a: nat, n: nat)
    ensures XorBits(a, a, n) == 0
  {
    if n > 0 {
      XorBitsSelf(a / 2, n - 1);
    }
  }

  lemma XorAssoc(a: uint32, b: uint32, c: uint32)
    ensures Xor(Xor(a, b), c) == Xor(a, Xor(b, c))
    ensures Xor(0, a) == a && Xor(a, 0) == a
  {
    XorBitsAssoc(a, b, c, 32);
    Pow2Of32();
    XorBitsZero(a, 32);
  }

  /** The XOR of all complete words; up to three bytes at the end do not count. */
  function Checksum(s: Bytes): uint32 {
    if |s| < 4 then 0 else Xor(WordAt(s, 0), Checksum(s[4..]))
  }

  lemma {:induction false} ChecksumAppend(s: Bytes, t: Bytes)
    requires |s| % 4 == 0
    ensures Checksum(s + t) == Xor(Checksum(s), Checksum(t))
  {
    hide Xor;
    if s == [] {
      assert s + t == t;
      XorAssoc(Checksum(t), 0, 0);
    } else {
      assert (s + t)[4..] == s[4..] + t;
      ChecksumAppend(s[4..], t);
      XorAssoc(WordAt(s, 0), Checksum(s[4..]), Checksum(t));
    }
  }

  // ---------- readwrite ----------

  function Min(a: int, b: int): int {
    if a < b then a else b
  }

  function Zeros(n: nat): (s: Bytes)
    ensures |s| == n && forall i :: 0 <= i < n ==> s[i] == 0
  {
    seq(n, i => 0)
  }

  /** What is copied: the bytes that are there; where the file ends inside a block, zeros
      up to the end of that block or of what was asked for. */
  function Copied(src: Bytes, off: nat, sz: nat): Bytes
    decreases sz
  {
    if sz == 0 || off >= |src| then []
    else
      var k := Min(sz, BLOCK_SIZE);
      var n := Min(k, |src| - off);
      src[off..off + n] + Zeros(k - n) + Copied(src, off + n, sz - k)
  }

  lemma OneWord(s: Bytes, i: nat)
    requires i + 4 <= |s|
    ensures Checksum(s[i..i + 4]) == WordAt(s, i)
  {
    var w := s[i..i + 4];
    assert w[4..] == [];
    XorAssoc(WordAt(s, i), 0, 0);
  }

  // the checksum loop over one block
  method BlockChecksum(buf: Bytes, start: uint32) returns (chk: uint32)
    ensures chk == Xor(start, Checksum(buf))
  {
    hide Xor, WordAt;
    chk := start;
    var j := 0;
    XorAssoc(start, 0, 0);
    assert buf[..0] == [];
    while j < |buf| / 4
      invariant 0 <= j <= |buf| / 4
      invariant chk == Xor(start, Checksum(buf[..4 * j]))
    {
      assert buf[..4 * (j + 1)] == buf[..4 * j] + buf[4 * j..4 * (j + 1)];
      ChecksumAppend(buf[..4 * j], buf[4 * j..4 * (j + 1)]);
      OneWord(buf, 4 * j);
      XorAssoc(start, Checksum(buf[..4 * j]), WordAt(buf, 4 * j));
      chk := Xor(chk, WordAt(buf, 4 * j));
      j := j + 1;
    }
    assert buf == buf[..4 * j] + buf[4 * j..];
    ChecksumAppend(buf[..4 * j], buf[4 * j..]);
    XorAssoc(Checksum(buf[..4 * j]), 0, 0);
  }

  lemma AppendAssoc(a: Bytes, b: Bytes, c: Bytes)
    ensures a + (b + c) == a + b + c
  {
  }

  lemma NothingCopied(src: Bytes)
    ensures forall off: nat :: Copied(src, off, 0) == []
    ensures forall off: nat, sz: nat :: off >= |src| ==> Copied(src, off, sz) == []
    ensures forall n: nat :: |Zeros(n)| == n
  {
  }

  // one round of the loop
  lemma CopiedStep(src: Bytes, pos: nat, sz: nat)
    requires pos < |src| && sz > 0
    ensures var k := Min(sz, BLOCK_SIZE); var n := Min(k, |src| - pos);
      Copied(src, pos, sz) == (src[pos..pos + n] + Zeros(k - n)) + Copied(src, pos + n, sz - k)
  {
  }

  function EmptyChecksum(): (r: uint32)
    ensures r == 0 == Checksum([])
  {
    0
  }

  /** readwrite: copies block by block, with a running checksum that is the checksum of all
      that was copied. A checksum of 0 asks for it; any other must be met. */
  method ReadWrite(src: Bytes, off: nat, sz: nat, expected: uint32) returns (ok: bool, out: Bytes, chk: uint32)
    ensures out == Copied(src, off, sz)
    ensures chk == if expected == 0 then Checksum(out) else expected
    ensures ok <==> expected == 0 || Checksum(out) == expected
  {
    hide Checksum, Xor, Copied, Zeros;
    out := [];
    NothingCopied(src);
    var lchk := EmptyChecksum();
    var i, pos := 0, off;
    while i < sz
      invariant 0 <= i <= sz && off <= pos
      invariant i < sz ==> |out| % 4 == 0
      invariant Copied(src, off, sz) == out + Copied(src, pos, sz - i)
      invariant lchk == Checksum(out)
      decreases sz - i
    {
      if pos >= |src| {
        break;
      }
      var k := if sz - i > BLOCK_SIZE then BLOCK_SIZE else sz - i;
      var n := if |src| - pos < k then |src| - pos else k;
      var buf := src[pos..pos + n] + Zeros(k - n);
      lchk := BlockChecksum(buf, lchk);
      ChecksumAppend(out, buf);
      CopiedStep(src, pos, sz - i);
      AppendAssoc(out, buf, Copied(src, pos + n, sz - i - k));
      out := out + buf;
      i, pos := i + k, pos + n;
    }
    if expected == 0 {
      ok, chk := true, lchk;
    } else {
      ok, chk := lchk == expected, expected;
    }
  }

  lemma {:induction false} CopiedWhole(src: Bytes, off: nat, sz: nat)
    requires off + sz <= |src|
    ensures Copied(src, off, sz) == src[off..off + sz]
    decreases sz
  {
    if sz > 0 {
      var k := Min(sz, BLOCK_SIZE);
      CopiedWhole(src, off + k, sz - k);
      assert src[off..off + sz] == src[off..off + k] + src[off + k..off + sz];
    }
  }

  // ---------- headers ----------

  /** One supported box: header size, limits, and the name inside its signature. */
  datatype Box = Box(size: nat, kernelMax: nat, initramfsMax: nat, sqimageMax: nat, defaultsMax: nat, name: string)

  const BOXES: seq<Box> := [
    Box(64, 1572864, 6488064, 0, 65536, "FrodoII"),
    Box(64, 1572864, 10485760, 0, 131072, "Chopper"),
    Box(64, 1572864, 14417920, 0, 131072, "Gandolf"),
    Box(128, 5242880, 5242880, 106954752, 5242880, "DNS-325"),
    Box(128, 5242880, 5242880, 106954752, 5242880, "DNS323D1"),
    Box(128, 5242880, 5242880, 104857600, 5242880, "DNS320B"),
    Box(128, 5242880, 5242880, 104857600, 5242880, "DNS320L"),
    Box(128, 5242880, 5242880, 81788928, 10485760, "DNS327L"),
    Box(128, 5242880, 5242880, 73400320, 5242880, "DNR-322")]

  const SIG_LEN := 12
  const UBOOT: Bytes := [0x27, 0x05, 0x19, 0x56]

  function NameBytes(name: string): (s: Bytes)
    ensures |s| == |name|
  {
    seq(|name|, i requires 0 <= i < |name| => name[i] as int % 0x100)
  }

  // 0x55 0xAA, the name, padded to eight bytes, 0x55 0xAA
  function Magic(t: nat): (s: Bytes)
    requires t < |BOXES|
    ensures |s| == SIG_LEN
  {
    var name := BOXES[t].name;
    assert |name| == 7 || |name| == 8;
    [0x55, 0xAA] + NameBytes(name) + (if |name| == 7 then [0] else []) + [0x55, 0xAA]
  }

  // cmp_sig: the first box with this signature
  function FindBox(m: Bytes, from: nat): (r: Option<nat>)
    requires from <= |BOXES|
    ensures r.Some? ==> from <= r.value < |BOXES| && Magic(r.value) == m
    ensures r.None? ==> forall t :: from <= t < |BOXES| ==> Magic(t) != m
    decreases |BOXES| - from
  {
    if from == |BOXES| then None
    else if Magic(from) == m then Some(from)
    else FindBox(m, from + 1)
  }

  datatype Part = Part(off: uint32, len: uint32, sum: uint32)

  datatype Ids = Ids(product: byte, custom: byte, model: byte, sub: byte, version: byte)

  /** MY_CONTROL_HEADER. */
  datatype Header = Header(box: nat, size: nat, kernel: Part, initramfs: Part, sqimage: Part, defaults: Part,
      ids: Ids, next: uint32)

  function WordsBytes(ws: seq<uint32>): (s: Bytes)
    ensures |s| == 4 * |ws|
  {
    if ws == [] then [] else WordBytes(ws[0]) + WordsBytes(ws[1..])
  }

  function IdBytes(i: Ids): Bytes {
    [i.product, i.custom, i.model, i.sub, i.version]
  }

  // the words before the signature, in the order of CONTROL_HEADER_64 or _128
  function FieldWords(h: Header): (ws: seq<uint32>)
    ensures |ws| == if h.size == 64 then 9 else 12
  {
    if h.size == 64 then
      [h.kernel.off, h.kernel.len, h.initramfs.off, h.initramfs.len, h.defaults.off, h.defaults.len,
       h.kernel.sum, h.initramfs.sum, h.defaults.sum]
    else
      [h.kernel.off, h.kernel.len, h.initramfs.off, h.initramfs.len, h.sqimage.off, h.sqimage.len, h.defaults.off,
          h.defaults.len,
       h.kernel.sum, h.initramfs.sum, h.sqimage.sum, h.defaults.sum]
  }

  // set_header64 and set_header128
  function HeaderBytes(h: Header): (s: Bytes)
    requires h.box < |BOXES| && (h.size == 64 || h.size == 128)
    ensures |s| == h.size
  {
    var reserved := if h.size == 64 then 7 else 59;
    WordsBytes(FieldWords(h)) + (Magic(h.box) + (IdBytes(h.ids) + Zeros(reserved) + WordBytes(h.next)))
  }

  // get_info64 and get_info128
  function GetInfo(hd: Bytes, size: nat, box: nat): Header
    requires |hd| >= 128 && (size == 64 || size == 128)
  {
    var at := if size == 64 then 48 else 60;
    var ids := Ids(hd[at], hd[at + 1], hd[at + 2], hd[at + 3], hd[at + 4]);
    if size == 64 then
      Header(box, 64,
        Part(WordAt(hd, 0), WordAt(hd, 4), WordAt(hd, 24)), Part(WordAt(hd, 8), WordAt(hd, 12), WordAt(hd, 28)),
        Part(0, 0, 0), Part(WordAt(hd, 16), WordAt(hd, 20), WordAt(hd, 32)), ids, WordAt(hd, 60))
    else
      Header(box, 128,
        Part(WordAt(hd, 0), WordAt(hd, 4), WordAt(hd, 32)), Part(WordAt(hd, 8), WordAt(hd, 12), WordAt(hd, 36)),
        Part(WordAt(hd, 16), WordAt(hd, 20), WordAt(hd, 40)), Part(WordAt(hd, 24), WordAt(hd, 28), WordAt(hd, 44)),
        ids, WordAt(hd, 124))
  }

  /** check_sig: the layout is told by where a known signature stands; the shorter layout
      is tried first. */
  function CheckSig(hd: Bytes): Option<Header>
    requires |hd| >= 128
  {
    var t64 := FindBox(hd[36..48], 0);
    if t64.Some? then Some(GetInfo(hd, 64, t64.value)) else
    var t128 := FindBox(hd[48..60], 0);
    if t128.Some? then Some(GetInfo(hd, 128, t128.value)) else None
  }

  lemma {:induction false} FieldAt(ws: seq<uint32>, rest: Bytes, i: nat)
    requires i < |ws|
    ensures WordAt(WordsBytes(ws) + rest, 4 * i) == ws[i]
  {
    var s := WordsBytes(ws) + rest;
    if i == 0 {
      assert s[0..4] == WordBytes(ws[0]);
      WordRoundTrip(ws[0], s, 0);
    } else {
      var tail := WordsBytes(ws[1..]) + rest;
      assert s == WordBytes(ws[0]) + tail;
      FieldAt(ws[1..], rest, i - 1);
      ShiftedWord(WordBytes(ws[0]), tail, 4 * (i - 1));
    }
  }

  lemma ShiftedWord(a: Bytes, b: Bytes, i: nat)
    requires i + 4 <= |b|
    ensures WordAt(a + b, |a| + i) == WordAt(b, i)
  {
  }

  /** The header that is written is the header that is read, in its own layout. */
  lemma HeaderReadsBack(h: Header, rest: Bytes)
    requires h.box < |BOXES| && (h.size == 64 || h.size == 128)
    requires |HeaderBytes(h) + rest| >= 128 && (h.size == 64 ==> h.sqimage == Part(0, 0, 0))
    ensures GetInfo(HeaderBytes(h) + rest, h.size, h.box) == h
  {
    var hd := HeaderBytes(h) + rest;
    var ws := FieldWords(h);
    var reserved := if h.size == 64 then 7 else 59;
    var tail := Magic(h.box) + (IdBytes(h.ids) + Zeros(reserved) + WordBytes(h.next)) + rest;
    assert hd == WordsBytes(ws) + tail;
    hide WordAt, WordsBytes, Magic, Zeros, WordBytes;
    assert |WordBytes(h.next)| == 4 && |Zeros(reserved)| == reserved;
    FieldAt(ws, tail, 0);
    FieldAt(ws, tail, 1);
    FieldAt(ws, tail, 2);
    FieldAt(ws, tail, 3);
    FieldAt(ws, tail, 4);
    FieldAt(ws, tail, 5);
    FieldAt(ws, tail, 6);
    FieldAt(ws, tail, 7);
    FieldAt(ws, tail, 8);
    if h.size == 128 {
      FieldAt(ws, tail, 9);
      FieldAt(ws, tail, 10);
      FieldAt(ws, tail, 11);
    }
    assert hd[h.size - 4..h.size] == WordBytes(h.next);
    WordRoundTrip(h.next, hd, h.size - 4);
    IdsReadBack(h, rest);
  }

  lemma IdsReadBack(h: Header, rest: Bytes)
    requires h.box < |BOXES| && (h.size == 64 || h.size == 128)
    ensures var at := if h.size == 64 then 48 else 60; var hd := HeaderBytes(h) + rest;
      |hd| >= at + 5 && h.ids == Ids(hd[at], hd[at + 1], hd[at + 2], hd[at + 3], hd[at + 4])
  {
    hide WordsBytes, Magic, Zeros, WordBytes;
    var at := if h.size == 64 then 48 else 60;
    var hd := HeaderBytes(h) + rest;
    var reserved := if h.size == 64 then 7 else 59;
    assert |WordBytes(h.next)| == 4 && |Zeros(reserved)| == reserved;
    assert hd[at..at + 5] == IdBytes(h.ids);
    var t := hd[at..at + 5];
    assert t[0] == hd[at] && t[1] == hd[at + 1] && t[2] == hd[at + 2] && t[3] == hd[at + 3] && t[4] == hd[at + 4];
  }

  // ---------- merge ----------

  /** What merge is given. */
  datatype Input = Input(box: nat, kernel: Bytes, initramfs: Bytes, sqimage: Option<Bytes>, defaults: Option<Bytes>,
      ids: Ids)

  predicate IsUboot(file: Bytes, off: nat) {
    off + 4 <= |file| && file[off..off + 4] == UBOOT
  }

  function OrEmpty(s: Option<Bytes>): Bytes {
    if s.Some? then s.value else []
  }

  // the parts in the order in which they are written; the short layout has no sqimage
  function SqimageOf(i: Input): Bytes
    requires i.box < |BOXES|
  {
    if BOXES[i.box].size == 128 then OrEmpty(i.sqimage) else []
  }

  predicate Mergeable(i: Input) {
    && i.box < |BOXES|
    && IsUboot(i.kernel, 0) && IsUboot(i.initramfs, 0)
    && |i.kernel| <= BOXES[i.box].kernelMax && |i.initramfs| <= BOXES[i.box].initramfsMax
    && |SqimageOf(i)| <= BOXES[i.box].sqimageMax
    && |OrEmpty(i.defaults)| <= BOXES[i.box].defaultsMax
  }

  function PartAt(off: nat, s: Bytes): Part
    requires off + |s| < 0x1_0000_0000
  {
    Part(off, |s|, Checksum(s))
  }

  lemma LimitsFit(i: Input)
    requires Mergeable(i)
    ensures BOXES[i.box].size == 64 || BOXES[i.box].size == 128
    ensures BOXES[i.box].size + |i.kernel| + |i.initramfs| + |SqimageOf(i)| + |OrEmpty(i.defaults)| < 0x1_0000_0000
  {
  }

  /** The header of a merged file: the parts follow each other without a gap. */
  function HeaderOf(i: Input): (h: Header)
    requires Mergeable(i)
    ensures h.box == i.box && h.size == BOXES[i.box].size && (h.size == 64 || h.size == 128)
    ensures h.kernel.off == h.size
    ensures h.initramfs.off == h.kernel.off + h.kernel.len
    ensures h.size == 128 ==>
      h.sqimage.off == h.initramfs.off + h.initramfs.len && h.defaults.off == h.sqimage.off + h.sqimage.len
    ensures h.size == 64 ==> h.sqimage == Part(0, 0, 0) && h.defaults.off == h.initramfs.off + h.initramfs.len
  {
    LimitsFit(i);
    var size := BOXES[i.box].size;
    var k := size + |i.kernel|;
    var r := k + |i.initramfs|;
    var q := r + |SqimageOf(i)|;
    Header(i.box, size, PartAt(size, i.kernel), PartAt(k, i.initramfs),
      if size == 128 then PartAt(r, SqimageOf(i)) else Part(0, 0, 0),
      PartAt(q, OrEmpty(i.defaults)), i.ids, 0)
  }

  function Image(i: Input): Bytes
    requires Mergeable(i)
  {
    HeaderBytes(HeaderOf(i)) + (i.kernel + i.initramfs + SqimageOf(i) + OrEmpty(i.defaults))
  }

  // savecomp: appends a component to the file being written
  method SaveComp(fdo: Bytes, data: Bytes, uboot: bool, max: nat) returns (ok: bool, fdo': Bytes, part: Part)
    requires |fdo| + max < 0x1_0000_0000
    ensures ok <==> (uboot ==> IsUboot(data, 0)) && |data| <= max
    ensures ok ==> fdo' == fdo + data && part == PartAt(|fdo|, data)
  {
    fdo', part := fdo, Part(0, 0, 0);
    if (uboot && !IsUboot(data, 0)) || |data| > max {
      return false, fdo', part;
    }
    var copied, out, sum := ReadWrite(data, 0, |data|, 0);
    CopiedWhole(data, 0, |data|);
    assert data[0..|data|] == data;
    ok, fdo', part := copied, fdo + out, Part(|fdo|, |data|, sum);
  }

  // a component that may be missing: its place is recorded all the same
  method SaveOptional(fdo: Bytes, data: Option<Bytes>, max: nat) returns (ok: bool, fdo': Bytes, part: Part)
    requires |fdo| + max < 0x1_0000_0000
    ensures ok <==> |OrEmpty(data)| <= max
    ensures ok ==> fdo' == fdo + OrEmpty(data) && part == PartAt(|fdo|, OrEmpty(data))
  {
    if data.Some? {
      ok, fdo', part := SaveComp(fdo, data.value, false, max);
    } else {
      ok, fdo', part := true, fdo, Part(|fdo|, 0, 0);
    }
  }

  lemma BoxFits(t: nat)
    requires t < |BOXES|
    ensures var b := BOXES[t];
      && (b.size == 64 || b.size == 128)
      && b.size + b.kernelMax + b.initramfsMax + b.sqimageMax + b.defaultsMax < 0x1_0000_0000
  {
  }

  // the parts, one after the other, behind the placeholder for the header
  method SaveParts(i: Input, start: Bytes) returns (ok: bool, fdo: Bytes, hd: Header)
    requires i.box < |BOXES| && |start| == BOXES[i.box].size
    ensures ok <==> Mergeable(i)
    ensures ok ==> hd == HeaderOf(i) && fdo == start + i.kernel + i.initramfs + SqimageOf(i) + OrEmpty(i.defaults)
  {
    BoxFits(i.box);
    hide BOXES, Checksum, IsUboot;
    var box := BOXES[i.box];
    var none := Part(0, 0, 0);
    hd := Header(i.box, box.size, none, none, none, none, i.ids, 0);
    var part;
    ok, fdo, part := SaveComp(start, i.kernel, true, box.kernelMax);
    if !ok {
      return;
    }
    hd := hd.(kernel := part);
    ok, fdo, part := SaveComp(fdo, i.initramfs, true, box.initramfsMax);
    if !ok {
      return;
    }
    hd := hd.(initramfs := part);
    if box.size == 128 {
      ok, fdo, part := SaveOptional(fdo, i.sqimage, box.sqimageMax);
      if !ok {
        return;
      }
      hd := hd.(sqimage := part);
    } else {
      assert fdo + SqimageOf(i) == fdo;
    }
    ok, fdo, part := SaveOptional(fdo, i.defaults, box.defaultsMax);
    hd := hd.(defaults := part);
  }

  /** merge: a placeholder for the header, the parts, then the header written over the
      placeholder. */
  method Merge(i: Input) returns (r: Option<Bytes>)
    ensures r.Some? <==> Mergeable(i)
    ensures r.Some? ==> r.value == Image(i)
  {
    if i.box >= |BOXES| {
      return None;
    }
    BoxFits(i.box);
    hide BOXES, HeaderBytes, Mergeable, HeaderOf, Zeros;
    var size := BOXES[i.box].size;
    var start := Zeros(size);
    var ok, fdo, hd := SaveParts(i, start);
    if !ok {
      return None;
    }
    assert fdo == start + (i.kernel + i.initramfs + SqimageOf(i) + OrEmpty(i.defaults));
    r := Some(HeaderBytes(hd) + fdo[size..]);
  }

  // ---------- split ----------

  datatype Parts = Parts(kernel: Bytes, initramfs: Bytes, sqimage: Option<Bytes>, defaults: Bytes)

  // a component as savefile writes it, if its checksum is met
  function Extract(file: Bytes, p: Part): Option<Bytes> {
    var out := Copied(file, p.off, p.len);
    if p.sum == 0 || Checksum(out) == p.sum then Some(out) else None
  }

  /** What split makes of a file. */
  function SplitOf(file: Bytes): Option<Parts> {
    if |file| < 128 then None else
    var hd := CheckSig(file[..128]);
    if hd.None? then None else
    var h := hd.value;
    if !IsUboot(file, h.kernel.off) || !IsUboot(file, h.initramfs.off) then None else
    var k, i, d := Extract(file, h.kernel), Extract(file, h.initramfs), Extract(file, h.defaults);
    var q := if h.size == 128 then Extract(file, h.sqimage) else Some([]);
    if k.None? || i.None? || q.None? || d.None? then None
    else Some(Parts(k.value, i.value, if h.size == 128 then q else None, d.value))
  }

  // savefile
  method SaveFile(file: Bytes, p: Part) returns (r: Option<Bytes>)
    ensures r == Extract(file, p)
  {
    var ok, out, sum := ReadWrite(file, p.off, p.len, p.sum);
    r := if ok then Some(out) else None;
  }

  method Split(file: Bytes) returns (r: Option<Parts>)
    ensures r == SplitOf(file)
  {
    if |file| < 128 {
      return None;
    }
    var hd := CheckSig(file[..128]);
    if hd.None? {
      return None;
    }
    var h := hd.value;
    if !IsUboot(file, h.kernel.off) || !IsUboot(file, h.initramfs.off) {
      return None;
    }
    var k := SaveFile(file, h.kernel);
    if k.None? {
      return None;
    }
    var i := SaveFile(file, h.initramfs);
    if i.None? {
      return None;
    }
    var q: Option<Bytes> := None;
    if h.size == 128 {
      q := SaveFile(file, h.sqimage);
      if q.None? {
        return None;
      }
    }
    var d := SaveFile(file, h.defaults);
    if d.None? {
      return None;
    }
    r := Some(Parts(k.value, i.value, q, d.value));
  }

  // ---------- round trip ----------

  function CharAt(t: nat, k: nat): char
    requires t < |BOXES| && k < 7
  {
    assert |BOXES[t].name| >= 7;
    BOXES[t].name[k]
  }

  lemma NamesApart(a: nat, b: nat)
    requires a < |BOXES| && b < |BOXES| && a != b
    ensures CharAt(a, 0) != CharAt(b, 0) || CharAt(a, 2) != CharAt(b, 2) || CharAt(a, 3) != CharAt(b, 3)
         || CharAt(a, 5) != CharAt(b, 5) || CharAt(a, 6) != CharAt(b, 6)
  {
  }

  lemma MagicChar(t: nat, k: nat)
    requires t < |BOXES| && k < 7
    ensures Magic(t)[2 + k] == CharAt(t, k) as int
  {
    BoxName(t, k);
    hide BOXES;
    var name := BOXES[t].name;
    assert Magic(t)[2 + k] == NameBytes(name)[k];
  }

  lemma BoxName(t: nat, k: nat)
    requires t < |BOXES| && k < 7
    ensures var name := BOXES[t].name; (|name| == 7 || |name| == 8) && name[k] as int < 0x80
  {
  }

  /** No two boxes share a signature. */
  lemma MagicsApart(a: nat, b: nat)
    requires a < |BOXES| && b < |BOXES| && Magic(a) == Magic(b)
    ensures a == b
  {
    hide BOXES, Magic;
    forall k: nat | k < 7
      ensures CharAt(a, k) == CharAt(b, k)
    {
      MagicChar(a, k);
      MagicChar(b, k);
    }
    if a != b {
      NamesApart(a, b);
    }
  }

  // the bytes where the shorter layout has its signature
  function SigOfShort(i: Input): Bytes
    requires Mergeable(i)
  {
    if BOXES[i.box].size == 64 then Magic(i.box)
    else WordBytes(Checksum(i.initramfs)) + WordBytes(Checksum(SqimageOf(i))) + WordBytes(Checksum(OrEmpty(i.defaults)))
  }

  /** The three checksums of the longer layout happen to spell a signature at the place
      where the shorter layout has it. */
  predicate LooksShort(i: Input)
    requires Mergeable(i)
  {
    BOXES[i.box].size == 128 && FindBox(SigOfShort(i), 0).Some?
  }

  lemma ShortSigBytes(i: Input)
    requires Mergeable(i)
    ensures |Image(i)| >= 48 && Image(i)[36..48] == SigOfShort(i)
  {
    hide BOXES, Checksum, WordBytes, Zeros, Magic;
    BoxFits(i.box);
    var h := HeaderOf(i);
    var ws := FieldWords(h);
    var body := i.kernel + i.initramfs + SqimageOf(i) + OrEmpty(i.defaults);
    var reserved := if h.size == 64 then 7 else 59;
    assert |WordBytes(h.next)| == 4 && |Zeros(reserved)| == reserved;
    var tail := Magic(h.box) + (IdBytes(h.ids) + Zeros(reserved) + WordBytes(h.next)) + body;
    assert Image(i) == WordsBytes(ws) + tail;
    if h.size == 64 {
      hide WordsBytes;
      assert tail[..12] == Magic(h.box);
    } else {
      LastWords(ws);
    }
  }

  // the last three of the twelve words of the longer layout
  lemma LastWords(ws: seq<uint32>)
    requires |ws| == 12
    ensures WordsBytes(ws)[36..] == WordBytes(ws[9]) + WordBytes(ws[10]) + WordBytes(ws[11])
  {
    WordsFrom(ws, 9);
    var r := ws[9..];
    assert r[1..][1..] == [ws[11]] && r[1..] == [ws[10], ws[11]];
    assert WordsBytes([ws[11]]) == WordBytes(ws[11]) + WordsBytes([]);
    assert WordsBytes(r[1..]) == WordBytes(ws[10]) + WordsBytes(r[1..][1..]);
  }

  lemma {:induction false} WordsFrom(ws: seq<uint32>, k: nat)
    requires k <= |ws|
    ensures WordsBytes(ws)[4 * k..] == WordsBytes(ws[k..])
  {
    if k > 0 {
      WordsFrom(ws[1..], k - 1);
      assert WordsBytes(ws)[4..] == WordsBytes(ws[1..]);
      assert ws[1..][k - 1..] == ws[k..];
      assert WordsBytes(ws)[4 * k..] == WordsBytes(ws)[4..][4 * (k - 1)..];
    } else {
      assert ws[0..] == ws;
    }
  }

  lemma LongSigBytes(i: Input)
    requires Mergeable(i) && BOXES[i.box].size == 128
    ensures |Image(i)| >= 128 && Image(i)[48..60] == Magic(i.box)
  {
    hide BOXES, Checksum, WordBytes, WordsBytes, Zeros, Magic;
    var h := HeaderOf(i);
    assert |WordBytes(h.next)| == 4 && |Zeros(59)| == 59;
    var hb := HeaderBytes(h);
    assert hb[48..60] == Magic(i.box);
    assert Image(i)[48..60] == hb[48..60];
  }

  /** The layout is recognised, and the header read back, unless a 128-byte header looks
      like a 64-byte one. */
  lemma ImageRecognised(i: Input)
    requires Mergeable(i) && |Image(i)| >= 128
    ensures !LooksShort(i) ==> CheckSig(Image(i)[..128]) == Some(HeaderOf(i))
    ensures LooksShort(i) ==> CheckSig(Image(i)[..128]).Some? && CheckSig(Image(i)[..128]).value.size == 64
  {
    var file := Image(i);
    var hd := file[..128];
    var h := HeaderOf(i);
    ShortSigBytes(i);
    BoxFits(i.box);
    var body := i.kernel + i.initramfs + SqimageOf(i) + OrEmpty(i.defaults);
    hide HeaderBytes, HeaderOf, Checksum, WordBytes, Magic, BOXES;
    assert hd[36..48] == SigOfShort(i);
    assert hd == HeaderBytes(h) + body[..128 - h.size];
    HeaderReadsBack(h, body[..128 - h.size]);
    if h.size == 64 {
      var t := FindBox(Magic(i.box), 0);
      MagicsApart(t.value, i.box);
    } else {
      LongSigBytes(i);
      assert hd[48..60] == Magic(i.box);
      var t := FindBox(Magic(i.box), 0);
      MagicsApart(t.value, i.box);
    }
  }

  lemma PartExtracted(file: Bytes, off: nat, s: Bytes)
    requires off + |s| <= |file| && off + |s| < 0x1_0000_0000 && file[off..off + |s|] == s
    ensures Extract(file, PartAt(off, s)) == Some(s)
    ensures IsUboot(s, 0) ==> IsUboot(file, off)
  {
    CopiedWhole(file, off, |s|);
    if IsUboot(s, 0) {
      assert file[off..off + 4] == file[off..off + |s|][0..4];
    }
  }

  lemma SlicesOf(h: Bytes, k: Bytes, r: Bytes, q: Bytes, d: Bytes)
    ensures var file := h + (k + r + q + d);
      && |file| == |h| + |k| + |r| + |q| + |d|
      && file[|h|..|h| + |k|] == k
      && file[|h| + |k|..|h| + |k| + |r|] == r
      && file[|h| + |k| + |r|..|h| + |k| + |r| + |q|] == q
      && file[|h| + |k| + |r| + |q|..|h| + |k| + |r| + |q| + |d|] == d
  {
  }

  /** What split should give back. */
  function PartsOf(i: Input): Parts
    requires Mergeable(i)
  {
    Parts(i.kernel, i.initramfs, if BOXES[i.box].size == 128 then Some(SqimageOf(i)) else None, OrEmpty(i.defaults))
  }

  lemma PartsExtracted(i: Input)
    requires Mergeable(i)
    ensures var h := HeaderOf(i); var file := Image(i);
      && Extract(file, h.kernel) == Some(i.kernel) && Extract(file, h.initramfs) == Some(i.initramfs)
      && (h.size == 128 ==> Extract(file, h.sqimage) == Some(SqimageOf(i)))
      && Extract(file, h.defaults) == Some(OrEmpty(i.defaults))
      && IsUboot(file, h.kernel.off) && IsUboot(file, h.initramfs.off)
  {
    HeaderParts(i);
    ImageBytes(i);
    var h := HeaderOf(i);
    ContiguousParts(h, HeaderBytes(h), i.kernel, i.initramfs, SqimageOf(i), OrEmpty(i.defaults));
  }

  lemma ContiguousParts(h: Header, hb: Bytes, k: Bytes, r: Bytes, q: Bytes, d: Bytes)
    requires |hb| == h.size && h.size + |k| + |r| + |q| + |d| < 0x1_0000_0000
    requires h.kernel == PartAt(h.size, k) && h.initramfs == PartAt(h.size + |k|, r)
    requires h.size == 128 ==> h.sqimage == PartAt(h.size + |k| + |r|, q)
    requires h.defaults == PartAt(h.size + |k| + |r| + |q|, d)
    requires IsUboot(k, 0) && IsUboot(r, 0)
    ensures var file := hb + (k + r + q + d);
      && Extract(file, h.kernel) == Some(k) && Extract(file, h.initramfs) == Some(r)
      && (h.size == 128 ==> Extract(file, h.sqimage) == Some(q))
      && Extract(file, h.defaults) == Some(d)
      && IsUboot(file, h.kernel.off) && IsUboot(file, h.initramfs.off)
  {
    var file := hb + (k + r + q + d);
    assert h.kernel.off == h.size && h.initramfs.off == h.size + |k|;
    SlicesOf(hb, k, r, q, d);
    hide *;
    PartExtracted(file, h.size, k);
    PartExtracted(file, h.size + |k|, r);
    PartExtracted(file, h.size + |k| + |r|, q);
    PartExtracted(file, h.size + |k| + |r| + |q|, d);
  }

  lemma ImageBytes(i: Input)
    requires Mergeable(i)
    ensures Image(i) == HeaderBytes(HeaderOf(i)) + (i.kernel + i.initramfs + SqimageOf(i) + OrEmpty(i.defaults))
    ensures |HeaderBytes(HeaderOf(i))| == HeaderOf(i).size
  {
  }

  lemma HeaderParts(i: Input)
    requires Mergeable(i)
    ensures var h := HeaderOf(i); var k, r, q, d := i.kernel, i.initramfs, SqimageOf(i), OrEmpty(i.defaults);
      && h.size + |k| + |r| + |q| + |d| < 0x1_0000_0000
      && h.kernel == PartAt(h.size, k) && h.initramfs == PartAt(h.size + |k|, r)
      && (h.size == 128 ==> h.sqimage == PartAt(h.size + |k| + |r|, q))
      && h.defaults == PartAt(h.size + |k| + |r| + |q|, d)
      && h.kernel.off == h.size && h.initramfs.off == h.size + |k|
      && IsUboot(k, 0) && IsUboot(r, 0)
  {
    LimitsFit(i);
    hide BOXES, Checksum;
  }

  /** Merging and splitting undo each other if and only if the file has the 128 bytes that
      split insists on and its header does not happen to look like a shorter one. */
  lemma SplitUndoesMerge(i: Input)
    requires Mergeable(i)
    ensures SplitOf(Image(i)) == Some(PartsOf(i)) <==> |Image(i)| >= 128 && !LooksShort(i)
  {
    if |Image(i)| >= 128 {
      ImageRecognised(i);
      PartsExtracted(i);
    }
  }

  // a part of one word, and one of three of which two are equal
  lemma FewWords(w: Bytes, u: Bytes)
    requires |w| == 4 && |u| == 4
    ensures Checksum(w) == WordAt(w, 0)
    ensures Checksum(u + u + w) == WordAt(w, 0)
  {
    OneWord(w, 0);
    OneWord(u, 0);
    assert w[0..4] == w && u[0..4] == u;
    ChecksumAppend(u + u, w);
    ChecksumAppend(u, u);
    XorBitsSelf(WordAt(u, 0), 32);
    XorAssoc(WordAt(w, 0), 0, 0);
  }

  /** A header can look like a shorter one: with these parts, the three checksums spell the
      signature of the first box, and split does not give the parts back. */
  lemma LookingShort(i: Input)
    requires i.box == 3 && i.kernel == UBOOT && i.initramfs == UBOOT + UBOOT + Magic(0)[0..4]
    requires i.sqimage == Some(Magic(0)[4..8]) && i.defaults == Some(Magic(0)[8..12])
    ensures Mergeable(i) && |Image(i)| >= 128 && LooksShort(i)
    ensures SplitOf(Image(i)) != Some(PartsOf(i))
  {
    hide Magic, Checksum, WordBytes, Image, SplitOf, WordAt;
    var m := Magic(0);
    var a, b, c := m[0..4], m[4..8], m[8..12];
    FewWords(a, UBOOT);
    FewWords(b, UBOOT);
    FewWords(c, UBOOT);
    WordOfBytes(a, 0);
    WordOfBytes(b, 0);
    WordOfBytes(c, 0);
    assert i.initramfs[0..4] == UBOOT;
    assert SigOfShort(i) == a + b + c == m;
    assert FindBox(m, 0) == Some(0);
    ImageBytes(i);
    SplitUndoesMerge(i);
  }
}
