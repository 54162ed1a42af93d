/** Stripping an ELF file: reading the headers, getmemorysize, truncatezeros, modifyheaders and
    commitchanges (toolchain/sstrip/sstrip.c). The file is a byte sequence; how headers are
    encoded is a parameter. */
module Sstrip {
  type byte = b: int | 0 <= b < 0x100
  type Bytes = seq<byte>

  const CHUNK := 1024

  /** A program header. `ptype` 0 is PT_NULL; `other` are the fields that are not looked at. */
  datatype Phdr = Phdr(ptype: nat, offset: nat, filesz: nat, memsz: nat, other: Bytes)

  const PT_NULL := 0

  /** The ELF header: its own size and that of a program header as it says, whether the file
      is an executable or a shared object, and where the two header tables are. */
  datatype Ehdr = Ehdr(ehsize: nat, phentsize: nat, loadable: bool, phoff: nat, phnum: nat,
    shoff: nat, shnum: nat, shentsize: nat, shstrndx: nat, other: Bytes)

  /** How headers of one class and byte order stand in the file. */
  datatype Format = Format(ehsize: nat, phentsize: nat, readEhdr: Bytes -> Ehdr, writeEhdr: Ehdr -> Bytes,
    readPhdr: Bytes -> Phdr, writePhdr: Phdr -> Bytes)

  /** Written headers have their sizes, and writing one that was read gives it back. */
  ghost predicate FormatOk(f: Format) {
    && f.ehsize >= 16
    && (forall e :: |f.writeEhdr(e)| == f.ehsize) && (forall p :: |f.writePhdr(p)| == f.phentsize)
    && (forall b: Bytes :: |b| == f.ehsize ==> f.writeEhdr(f.readEhdr(b)) == b)
    && (forall b: Bytes :: |b| == f.phentsize ==> f.writePhdr(f.readPhdr(b)) == b)
  }

  function End(p: Phdr): nat {
    p.offset + p.filesz
  }

  // ---------- getmemorysize ----------

  function Max(a: nat, b: nat): nat {
    if a > b then a else b
  }

  // the greatest end of a segment, but at least `start`
  function GreatestEnd(phdrs: seq<Phdr>, start: nat): nat {
    if phdrs == [] then start else
    var last := phdrs[|phdrs| - 1];
    var rest := GreatestEnd(phdrs[..|phdrs| - 1], start);
    if last.ptype != PT_NULL then Max(rest, End(last)) else rest
  }

  /** How much of the file is referenced: the headers and every segment. */
  function MemorySize(phdrs: seq<Phdr>, ehsize: nat, tableEnd: nat): nat {
    GreatestEnd(phdrs, Max(tableEnd, ehsize))
  }

  lemma {:induction false} GreatestEndIsLeastBound(phdrs: seq<Phdr>, start: nat)
    ensures GreatestEnd(phdrs, start) >= start
    ensures forall p :: p in phdrs && p.ptype != PT_NULL ==> End(p) <= GreatestEnd(phdrs, start)
    ensures GreatestEnd(phdrs, start) == start ||
      exists p :: p in phdrs && p.ptype != PT_NULL && End(p) == GreatestEnd(phdrs, start)
  {
    if phdrs != [] {
      var n := |phdrs| - 1;
      GreatestEndIsLeastBound(phdrs[..n], start);
      assert phdrs == phdrs[..n] + [phdrs[n]];
    }
  }

  lemma MemorySizeBounds(phdrs: seq<Phdr>, ehsize: nat, tableEnd: nat)
    ensures var size := MemorySize(phdrs, ehsize, tableEnd);
      size >= ehsize && size >= tableEnd && forall p :: p in phdrs && p.ptype != PT_NULL ==> End(p) <= size
  {
    GreatestEndIsLeastBound(phdrs, Max(tableEnd, ehsize));
  }

  method GetMemorySize(phdrs: seq<Phdr>, ehsize: nat, phoff: nat, phentsize: nat) returns (size: nat)
    ensures size == MemorySize(phdrs, ehsize, phoff + |phdrs| * phentsize)
  {
    size := phoff + |phdrs| * phentsize;
    if size < ehsize {
      size := ehsize;
    }
    ghost var start := size;
    var i := 0;
    while i < |phdrs|
      invariant 0 <= i <= |phdrs|
      invariant size == GreatestEnd(phdrs[..i], start)
    {
      assert phdrs[..i + 1][..i] == phdrs[..i];
      if phdrs[i].ptype != PT_NULL {
        var n := End(phdrs[i]);
        if n > size {
          size := n;
        }
      }
      i := i + 1;
    }
    assert phdrs[..i] == phdrs;
  }

  // ---------- truncatezeros ----------

  /** The length of a byte string without its trailing zeros. */
  function StrippedLen(s: Bytes): (n: nat)
    ensures n <= |s| && (n > 0 ==> s[n - 1] != 0)
    ensures forall i :: n <= i < |s| ==> s[i] == 0
  {
    if s == [] || s[|s| - 1] != 0 then |s| else StrippedLen(s[..|s| - 1])
  }

  lemma {:induction false} StrippedUnique(s: Bytes, n: nat)
    requires n <= |s| && (n > 0 ==> s[n - 1] != 0) && forall i :: n <= i < |s| ==> s[i] == 0
    ensures StrippedLen(s) == n
  {
    if n < |s| {
      StrippedUnique(s[..|s| - 1], n);
    }
  }

  // while (n && !contents[--n]) --size
  method ScanChunk(contents: Bytes, size: nat) returns (n: nat, size': nat)
    requires |contents| <= size
    ensures n <= |contents| && size - size' <= |contents| && size' <= size
    ensures forall i :: |contents| - (size - size') <= i < |contents| ==> contents[i] == 0
    ensures || (size' == size - |contents| && n == 0)
            || (n == |contents| - (size - size') - 1 && contents[n] != 0)
  {
    n, size' := |contents|, size;
    while n > 0
      invariant n <= |contents| && size' == size - (|contents| - n)
      invariant forall i :: n <= i < |contents| ==> contents[i] == 0
    {
      n := n - 1;
      if contents[n] != 0 {
        return;
      }
      size' := size' - 1;
    }
  }

  /** The file is an ELF file, of which at least the magic number is to be kept. */
  predicate HasMagic(file: Bytes, size: nat) {
    4 <= size && 4 <= |file| && file[0] == 0x7F && file[1] == 'E' as int && file[2] == 'L' as int &&
        file[3] == 'F' as int
  }

  /** truncatezeros: reads the file backwards in chunks. It ends because the magic number
      has a nonzero byte past index 0; see OnlyFirstByteLoops. */
  method TruncateZeros(file: Bytes, newsize: nat) returns (ok: bool, size: nat)
    requires HasMagic(file, newsize)
    ensures ok <==> newsize <= |file|
    ensures ok ==> size == StrippedLen(file[..newsize]) && size >= 4
  {
    size := newsize;
    var n := 0;
    while true
      invariant 4 <= size <= newsize
      invariant newsize <= |file| ==> forall i :: size <= i < newsize ==> file[i] == 0
      invariant newsize > |file| ==> size == newsize
      decreases size, if size <= |file| && file[size - 1] != 0 then 0 else 1
    {
      ghost var before := size;
      n := if CHUNK > size then size else CHUNK;
      if size > |file| {
        // the read comes up short
        return false, size;
      }
      var start := size - n;
      var contents := file[start..size];
      assert contents[..] == file[start..size] && forall i :: 0 <= i < n ==> contents[i] == file[start + i];
      assert start <= 3 ==> contents[3 - start] != 0;
      n, size := ScanChunk(contents, size);
      assert forall i :: size <= i < before ==> file[i] == contents[i - start];
      if n != 0 {
        break;
      }
    }
    StrippedUnique(file[..newsize], size);
    ok := true;
  }

  // one round of the loop: where it leaves size and n
  function ChunkRound(file: Bytes, size: nat): (nat, nat)
    requires size <= |file|
  {
    var start := if CHUNK > size then 0 else size - CHUNK;
    var kept := StrippedLen(file[start..size]);
    (start + kept, if kept == 0 then 0 else kept - 1)
  }

  /** The loop goes around without progress exactly when a single byte is left that is not
      zero. */
  lemma OnlyFirstByteLoops(file: Bytes, size: nat)
    requires 0 < size <= |file|
    ensures ChunkRound(file, size) == (size, 0) <==> size == 1 && file[0] != 0
  {
    var start := if CHUNK > size then 0 else size - CHUNK;
    var s := file[start..size];
    assert s[|s| - 1] == file[size - 1];
    if file[size - 1] != 0 {
      StrippedUnique(s, |s|);
    }
  }

  // ---------- modifyheaders ----------

  // what one header becomes under a cut
  function Trimmed(p: Phdr, cut: nat): Phdr {
    if p.offset >= cut then p.(offset := cut, filesz := 0)
    else if End(p) > cut then p.(filesz := cut - p.offset)
    else p
  }

  // a header that reaches over the cut moves the cut for all headers after it
  function NextCut(p: Phdr, cut: nat): nat {
    if p.offset < cut < End(p) then cut - p.offset else cut
  }

  /** The cut that header `j` is compared with. */
  function CutFor(phdrs: seq<Phdr>, newsize: nat, j: nat): nat
    requires j <= |phdrs|
  {
    if j == 0 then newsize else NextCut(phdrs[j - 1], CutFor(phdrs, newsize, j - 1))
  }

  lemma CutStep(phdrs: seq<Phdr>, newsize: nat, j: nat)
    ensures CutFor(phdrs, newsize, 0) == newsize
    ensures j < |phdrs| ==> CutFor(phdrs, newsize, j + 1) == NextCut(phdrs[j], CutFor(phdrs, newsize, j))
  {
  }

  /** The loop over the program header table, in place; `newsize` is overwritten on the
      way. */
  method ModifyHeaders(phdrs: array<Phdr>, size: nat)
    modifies phdrs
    ensures forall j :: 0 <= j < phdrs.Length ==> phdrs[j] == Trimmed(old(phdrs[j]), CutFor(old(phdrs[..]), size, j))
  {
    hide CutFor;
    ghost var was := phdrs[..];
    var newsize := size;
    var i := 0;
    CutStep(was, size, 0);
    while i < phdrs.Length
      invariant 0 <= i <= phdrs.Length
      invariant newsize == CutFor(was, size, i)
      invariant forall j :: 0 <= j < i ==> phdrs[j] == Trimmed(was[j], CutFor(was, size, j))
      invariant forall j :: i <= j < phdrs.Length ==> phdrs[j] == was[j]
    {
      ghost var cut := newsize;
      var p := phdrs[i];
      if p.offset >= newsize {
        phdrs[i] := p.(offset := newsize, filesz := 0);
      } else if p.offset + p.filesz > newsize {
        newsize := newsize - p.offset;
        phdrs[i] := p.(filesz := newsize);
      }
      assert phdrs[i] == Trimmed(was[i], cut) && newsize == NextCut(was[i], cut);
      CutStep(was, size, i);
      i := i + 1;
    }
  }

  /** If the section header table is gone, the references to it are removed. */
  function SectionsGone(e: Ehdr, newsize: nat): Ehdr {
    if e.shoff >= newsize then e.(shoff := 0, shnum := 0, shentsize := 0, shstrndx := 0) else e
  }

  lemma {:induction false} CutShrinks(phdrs: seq<Phdr>, newsize: nat, j: nat)
    requires j <= |phdrs|
    ensures CutFor(phdrs, newsize, j) <= newsize
  {
    if j > 0 {
      CutShrinks(phdrs, newsize, j - 1);
    }
  }

  // ---------- commitchanges ----------

  function Overwrite(file: Bytes, at: nat, bytes: Bytes): (r: Bytes)
    requires at + |bytes| <= |file|
    ensures |r| == |file|
    ensures forall i :: 0 <= i < |file| ==> r[i] == if at <= i < at + |bytes| then bytes[i - at] else file[i]
  {
    file[..at] + bytes + file[at + |bytes|..]
  }

  predicate InHeaders(i: nat, ehsize: nat, phoff: nat, phsize: nat) {
    i < ehsize || phoff <= i < phoff + phsize
  }

  /** commitchanges: both headers are written back, and the file is cut, but never before
      the end of the program header table. */
  method Commit(file: Bytes, ehdr: Bytes, phoff: nat, phdrs: Bytes, newsize: nat) returns (r: Bytes)
    requires |ehdr| <= |file| && phoff + |phdrs| <= |file| && newsize <= |file|
    ensures |r| == if newsize < phoff + |phdrs| then phoff + |phdrs| else newsize
    ensures forall i :: 0 <= i < |r| && !InHeaders(i, |ehdr|, phoff, |phdrs|) ==> r[i] == file[i]
    ensures forall i :: 0 <= i < |phdrs| ==> r[phoff + i] == phdrs[i]
    ensures forall i :: 0 <= i < |ehdr| && i < |r| && !(phoff <= i < phoff + |phdrs|) ==> r[i] == ehdr[i]
  {
    r := Overwrite(file, 0, ehdr);
    r := Overwrite(r, phoff, phdrs);
    var size := newsize;
    if size < phoff + |phdrs| {
      size := phoff + |phdrs|;
    }
    r := r[..size];
  }

  // ---------- what is loaded ----------

  /** Byte `k` of a segment in memory: from the file, zero beyond. */
  function MemoryByte(file: Bytes, p: Phdr, k: nat): byte {
    if k < p.filesz && p.offset + k < |file| then file[p.offset + k] else 0
  }

  /** The segment is loaded as before, except for the bytes of the rewritten headers. */
  ghost predicate SameSegment(file: Bytes, p: Phdr, file': Bytes, p': Phdr, ehsize: nat, phoff: nat, phsize: nat) {
    forall k: nat :: k < p.memsz && !InHeaders(p.offset + k, ehsize, phoff, phsize) ==>
      MemoryByte(file', p', k) == MemoryByte(file, p, k)
  }

  // the stripped file: unchanged outside the headers, and nothing but zeros is cut off
  ghost predicate StrippedTo(file: Bytes, file': Bytes, cut: nat, size: nat, ehsize: nat, phoff: nat, phsize: nat) {
    && cut <= size <= |file| && cut <= |file'| <= |file|
    && (forall i :: cut <= i < size ==> file[i] == 0)
    && (forall i :: 0 <= i < |file'| && !InHeaders(i, ehsize, phoff, phsize) ==> file'[i] == file[i])
  }

  // the bytes of a segment that are loaded from the file, from the given cut on, are zeros
  ghost predicate NothingBehind(file: Bytes, p: Phdr, cut: nat, ehsize: nat, phoff: nat, phsize: nat) {
    forall i: nat ::
      p.offset <= i < End(p) && i < p.offset + p.memsz && cut <= i < |file| && !InHeaders(i, ehsize, phoff, phsize) ==>
      file[i] == 0
  }

  /** A segment survives if and only if its bytes from the cut that its header was compared
      with, outside the headers, are zeros. */
  lemma SegmentKeptIff(file: Bytes, file': Bytes, size: nat, ehsize: nat, phoff: nat, phsize: nat, newsize: nat,
      phdrs: seq<Phdr>, j: nat)
    requires StrippedTo(file, file', newsize, size, ehsize, phoff, phsize)
    requires j < |phdrs| && End(phdrs[j]) <= size
    ensures var p := phdrs[j]; var cut := CutFor(phdrs, newsize, j);
      SameSegment(file, p, file', Trimmed(p, cut), ehsize, phoff, phsize) <==>
          NothingBehind(file, p, cut, ehsize, phoff, phsize)
  {
    var p := phdrs[j];
    var cut := CutFor(phdrs, newsize, j);
    var p' := Trimmed(p, cut);
    CutShrinks(phdrs, newsize, j);
    if SameSegment(file, p, file', p', ehsize, phoff, phsize) {
      forall i: nat | p.offset <= i < End(p) && i < p.offset + p.memsz && cut <= i < |file| &&
          !InHeaders(i, ehsize, phoff, phsize)
        ensures file[i] == 0
      {
        var k := i - p.offset;
        assert MemoryByte(file', p', k) == MemoryByte(file, p, k);
      }
    }
    if NothingBehind(file, p, cut, ehsize, phoff, phsize) {
      forall k: nat | k < p.memsz && !InHeaders(p.offset + k, ehsize, phoff, phsize)
        ensures MemoryByte(file', p', k) == MemoryByte(file, p, k)
      {
        if k < p.filesz {
          assert file[p.offset + k] == if p.offset + k < cut then file'[p.offset + k] else 0;
        }
      }
    }
  }

  // the header is compared with the real cut, or ends before what it is compared with
  predicate Unharmed(phdrs: seq<Phdr>, newsize: nat, j: nat)
    requires j < |phdrs|
  {
    CutFor(phdrs, newsize, j) == newsize || End(phdrs[j]) <= CutFor(phdrs, newsize, j)
  }

  /** All segments survive if every header was compared with the real cut, or ends before
      the one it was compared with: in particular if no header reaches over the cut. */
  lemma SegmentsKept(file: Bytes, file': Bytes, size: nat, ehsize: nat, phoff: nat, phsize: nat, newsize: nat,
      phdrs: seq<Phdr>, j: nat)
    requires StrippedTo(file, file', newsize, size, ehsize, phoff, phsize)
    requires j < |phdrs| && End(phdrs[j]) <= size
    requires Unharmed(phdrs, newsize, j)
    ensures SameSegment(file, phdrs[j], file', Trimmed(phdrs[j], CutFor(phdrs, newsize, j)), ehsize, phoff, phsize)
  {
    SegmentKeptIff(file, file', size, ehsize, phoff, phsize, newsize, phdrs, j);
  }

  // the program header table as it is written back
  function TableBytes(encode: Phdr -> Bytes, table: seq<Phdr>): Bytes {
    if table == [] then [] else TableBytes(encode, table[..|table| - 1]) + encode(table[|table| - 1])
  }

  lemma {:induction false} TableBytesLength(encode: Phdr -> Bytes, table: seq<Phdr>, phentsize: nat)
    requires forall p :: |encode(p)| == phentsize
    ensures |TableBytes(encode, table)| == |table| * phentsize
  {
    if table != [] {
      var n := |table| - 1;
      TableBytesLength(encode, table[..n], phentsize);
      OneMore(n, phentsize);
    }
  }

  lemma OneMore(n: nat, size: nat)
    ensures (n + 1) * size == n * size + size
  {
  }

  // ---------- reading the headers ----------

  // how long a table of n program headers is
  function TableSize(f: Format, n: nat): nat {
    n * f.phentsize
  }

  lemma TableGrows(f: Format, n: nat)
    ensures TableSize(f, 0) == 0 && TableSize(f, n + 1) == TableSize(f, n) + f.phentsize
  {
    OneMore(n, f.phentsize);
  }

  /** The program headers that stand in the file from `at` on. */
  function TableAt(f: Format, file: Bytes, at: nat, n: nat): (t: seq<Phdr>)
    requires at + TableSize(f, n) <= |file|
    ensures |t| == n
  {
    if n == 0 then [] else
    TableGrows(f, n - 1);
    hide TableSize;
    var end := at + TableSize(f, n - 1);
    TableAt(f, file, at, n - 1) + [f.readPhdr(file[end..end + f.phentsize])]
  }

  lemma TableBytesMore(encode: Phdr -> Bytes, t: seq<Phdr>, p: Phdr)
    ensures TableBytes(encode, t + [p]) == TableBytes(encode, t) + encode(p)
  {
    assert (t + [p])[..|t|] == t;
  }

  // one more program header behind those that were read
  lemma BytesStep(f: Format, file: Bytes, at: nat, k: nat, t: seq<Phdr>)
    requires FormatOk(f) && at + k + f.phentsize <= |file| && TableBytes(f.writePhdr, t) == file[at..at + k]
    ensures TableBytes(f.writePhdr, t + [f.readPhdr(file[at + k..at + k + f.phentsize])]) ==
      file[at..at + k + f.phentsize]
  {
    var last := file[at + k..at + k + f.phentsize];
    assert f.writePhdr(f.readPhdr(last)) == last;
    TableBytesMore(f.writePhdr, t, f.readPhdr(last));
    assert file[at..at + k + f.phentsize] == file[at..at + k] + last;
  }

  lemma {:induction false} TableBytesBack(f: Format, file: Bytes, at: nat, n: nat)
    requires FormatOk(f) && at + TableSize(f, n) <= |file|
    ensures TableBytes(f.writePhdr, TableAt(f, file, at, n)) == file[at..at + TableSize(f, n)]
  {
    hide FormatOk, TableSize;
    TableGrows(f, if n > 0 then n - 1 else 0);
    if n > 0 {
      TableBytesBack(f, file, at, n - 1);
      BytesStep(f, file, at, TableSize(f, n - 1), TableAt(f, file, at, n - 1));
    }
  }

  /** Two places of the file hold the same table if and only if they hold the same bytes. */
  lemma SameTableIff(f: Format, file: Bytes, a: nat, b: nat, n: nat)
    requires FormatOk(f) && a + TableSize(f, n) <= |file| && b + TableSize(f, n) <= |file|
    ensures TableAt(f, file, a, n) == TableAt(f, file, b, n)
       <==> file[a..a + TableSize(f, n)] == file[b..b + TableSize(f, n)]
  {
    hide FormatOk, TableBytes, TableAt, TableSize;
    TableBytesBack(f, file, a, n);
    TableBytesBack(f, file, b, n);
    if file[a..a + TableSize(f, n)] == file[b..b + TableSize(f, n)] {
      SameBytesSameTable(f, file, a, b, n);
    }
  }

  lemma {:induction false} SameBytesSameTable(f: Format, file: Bytes, a: nat, b: nat, n: nat)
    requires a + TableSize(f, n) <= |file| && b + TableSize(f, n) <= |file|
    requires file[a..a + TableSize(f, n)] == file[b..b + TableSize(f, n)]
    ensures TableAt(f, file, a, n) == TableAt(f, file, b, n)
  {
    hide TableSize;
    if n > 0 {
      TableGrows(f, n - 1);
      SameParts(file, a, b, TableSize(f, n - 1), f.phentsize);
      SameBytesSameTable(f, file, a, b, n - 1);
    }
  }

  lemma SameParts(file: Bytes, a: nat, b: nat, k: nat, n: nat)
    requires a + k + n <= |file| && b + k + n <= |file| && file[a..a + k + n] == file[b..b + k + n]
    ensures file[a..a + k] == file[b..b + k] && file[a + k..a + k + n] == file[b + k..b + k + n]
  {
    SliceParts(file, a, k, n);
    SliceParts(file, b, k, n);
  }

  lemma SliceParts(file: Bytes, a: nat, k: nat, n: nat)
    requires a + k + n <= |file|
    ensures var s := file[a..a + k + n]; s[..k] == file[a..a + k] && s[k..] == file[a + k..a + k + n]
  {
  }

  function EhdrOf(f: Format, file: Bytes): Ehdr
    requires f.ehsize <= |file|
  {
    f.readEhdr(file[..f.ehsize])
  }

  /** readelfheaderident and readelfheader accept the file, and readphdrtable finds a table:
      not where the ELF header says it is, but right behind the ELF header. */
  predicate Readable(f: Format, file: Bytes) {
    && f.ehsize <= |file| && HasMagic(file, f.ehsize)
    && var e := EhdrOf(f, file);
    && e.ehsize == f.ehsize && e.phentsize == f.phentsize && e.loadable
    && e.phoff != 0 && e.phnum != 0 && f.ehsize + TableSize(f, e.phnum) <= |file|
  }

  function TableRead(f: Format, file: Bytes): seq<Phdr>
    requires Readable(f, file)
  {
    TableAt(f, file, f.ehsize, EhdrOf(f, file).phnum)
  }

  // how much of the file the program takes to be referenced
  function Referenced(f: Format, file: Bytes): nat
    requires Readable(f, file)
  {
    SizeOf(TableRead(f, file), f.ehsize, EhdrOf(f, file).phoff, f.phentsize)
  }

  function SizeOf(table: seq<Phdr>, ehsize: nat, phoff: nat, phentsize: nat): nat {
    MemorySize(table, ehsize, phoff + |table| * phentsize)
  }

  method ReadTable(f: Format, file: Bytes, n: nat) returns (table: array<Phdr>)
    requires f.ehsize + TableSize(f, n) <= |file|
    ensures fresh(table) && table[..] == TableAt(f, file, f.ehsize, n)
  {
    table := new Phdr[n](_ => Phdr(0, 0, 0, 0, []));
    TableGrows(f, 0);
    var i, at := 0, f.ehsize;
    while i < n
      invariant 0 <= i <= n && at == f.ehsize + TableSize(f, i) && at <= |file|
      invariant table[..i] == TableAt(f, file, f.ehsize, i)
    {
      TableGrows(f, i);
      MoreFits(i + 1, n, f.phentsize);
      table[i] := f.readPhdr(file[at..at + f.phentsize]);
      assert table[..i + 1] == table[..i] + [table[i]];
      i, at := i + 1, at + f.phentsize;
    }
    assert table[..] == table[..n];
  }

  lemma MoreFits(i: nat, n: nat, size: nat)
    requires i <= n
    ensures i * size <= n * size
  {
  }

  // ---------- the whole run ----------

  /** What a run leaves, with the program headers that it read: the cut is behind the last
      referenced byte that is not zero, the headers are trimmed and stand where the ELF
      header says, and the rest of the file up to the cut is as it was. */
  ghost predicate StripsTo(file: Bytes, f: Format, e: Ehdr, was: seq<Phdr>, r: Bytes, table: seq<Phdr>) {
    var tableEnd := e.phoff + |was| * f.phentsize;
    var size := SizeOf(was, f.ehsize, e.phoff, f.phentsize);
    && size <= |file|
    && var cut := StrippedLen(file[..size]);
    && |r| == Max(cut, tableEnd)
    && StrippedTo(file, r, cut, size, f.ehsize, e.phoff, |was| * f.phentsize)
    && |table| == |was|
    && (forall j :: 0 <= j < |was| ==> table[j] == Trimmed(was[j], CutFor(was, cut, j)))
    && r[e.phoff..tableEnd] == TableBytes(f.writePhdr, table)
    && var b := f.writeEhdr(SectionsGone(e, cut));
    (forall i :: 0 <= i < |b| && i < |r| && !(e.phoff <= i < tableEnd) ==> r[i] == b[i])
  }

  // the segments whose headers pass the test of SegmentsKept are loaded as before
  ghost predicate KeepsSegments(file: Bytes, f: Format, e: Ehdr, was: seq<Phdr>, r: Bytes, table: seq<Phdr>) {
    var size := SizeOf(was, f.ehsize, e.phoff, f.phentsize);
    && size <= |file| && |table| == |was|
    && forall j :: 0 <= j < |was| && was[j].ptype != PT_NULL && Unharmed(was, StrippedLen(file[..size]), j) ==>
      SameSegment(file, was[j], r, table[j], f.ehsize, e.phoff, |was| * f.phentsize)
  }

  // ---------- the same, byte for byte ----------

  // everything that the headers refer to is in the file
  ghost predicate AllThere(f: Format, file: Bytes, e: Ehdr) {
    && f.ehsize + TableSize(f, e.phnum) <= |file| && e.phoff + TableSize(f, e.phnum) <= |file|
    && forall j: nat :: j < e.phnum && HeaderIn(f, file, f.ehsize, j).ptype != 0 ==>
      HeaderIn(f, file, f.ehsize, j).offset + HeaderIn(f, file, f.ehsize, j).filesz <= |file|
  }

  // the program header at place j of the table that begins at the given offset
  ghost function HeaderIn(f: Format, file: Bytes, at: nat, j: nat): Phdr {
    var from := at + TableSize(f, j);
    if from + f.phentsize <= |file| then f.readPhdr(file[from..from + f.phentsize]) else Phdr(0, 0, 0, 0, [])
  }

  /** An ELF executable or shared object whose header has the sizes of its class and refers
      to a program header table, with everything that the headers refer to. */
  ghost predicate Strippable(f: Format, file: Bytes) {
    && f.ehsize <= |file| && |file| >= 4 && file[..4] == [0x7F, 0x45, 0x4C, 0x46]
    && var e := f.readEhdr(file[..f.ehsize]);
    && e.ehsize == f.ehsize && e.phentsize == f.phentsize && e.loadable && e.phoff > 0 && e.phnum > 0
    && AllThere(f, file, e)
  }

  lemma {:induction false} TableAtIn(f: Format, file: Bytes, at: nat, n: nat, j: nat)
    requires at + TableSize(f, n) <= |file| && j < n
    ensures TableAt(f, file, at, n)[j] == HeaderIn(f, file, at, j)
  {
    TableGrows(f, n - 1);
    if j < n - 1 {
      TableAtIn(f, file, at, n - 1, j);
    }
  }

  lemma StrippableIff(f: Format, file: Bytes)
    requires FormatOk(f)
    ensures Strippable(f, file) <==> Readable(f, file) && Referenced(f, file) <= |file|
  {
    if f.ehsize <= |file| {
      MagicBytes(file);
      if Readable(f, file) {
        var e := EhdrOf(f, file);
        var was := TableRead(f, file);
        forall j: nat | j < e.phnum
          ensures was[j] == HeaderIn(f, file, f.ehsize, j)
        {
          TableAtIn(f, file, f.ehsize, e.phnum, j);
        }
        hide TableAt, HeaderIn;
        ReferencedIff(f, file, was, e);
      }
    }
  }

  /** The ELF header of the stripped file: where the section header table is cut off, nothing
      refers to it any more; otherwise it is the old header. */
  ghost predicate HeaderAfter(e: Ehdr, e': Ehdr, cut: nat) {
    && (e.shoff < cut ==> e' == e)
    && (e.shoff >= cut ==> e'.shoff == 0 && e'.shnum == 0 && e'.shentsize == 0 && e'.shstrndx == 0)
    && e'.ehsize == e.ehsize && e'.phentsize == e.phentsize && e'.loadable == e.loadable
    && e'.phoff == e.phoff && e'.phnum == e.phnum && e'.other == e.other
  }

  /** A program header that was compared with a cut: the segment begins no later than that
      and ends there at the latest, and is otherwise as it was. */
  ghost predicate SegmentAfter(p: Phdr, p': Phdr, cut: nat) {
    && p'.ptype == p.ptype && p'.memsz == p.memsz && p'.other == p.other
    && p'.offset == (if p.offset < cut then p.offset else cut)
    && (p.offset <= cut ==>
        p'.offset + p'.filesz == if p.offset + p.filesz < cut then p.offset + p.filesz else cut)
    && (p.offset > cut ==> p'.filesz == 0)
  }

  // how much of the file is referenced: by the headers themselves, or by a segment
  ghost predicate LastReferenced(f: Format, file: Bytes, e: Ehdr, size: nat) {
    var tableEnd := e.phoff + TableSize(f, e.phnum);
    && size >= f.ehsize && size >= tableEnd
    && (forall j: nat :: j < e.phnum && HeaderIn(f, file, f.ehsize, j).ptype != 0 ==>
        HeaderIn(f, file, f.ehsize, j).offset + HeaderIn(f, file, f.ehsize, j).filesz <= size)
    && (size == f.ehsize || size == tableEnd || exists j: nat ::
        j < e.phnum && HeaderIn(f, file, f.ehsize, j).ptype != 0 &&
        HeaderIn(f, file, f.ehsize, j).offset + HeaderIn(f, file, f.ehsize, j).filesz == size)
  }

  // the cuts that the headers are compared with, one after the other
  ghost predicate Cuts(f: Format, file: Bytes, e: Ehdr, cut: nat, cuts: seq<nat>) {
    && |cuts| == e.phnum + 1 && cuts[0] == cut
    && forall j: nat :: j < e.phnum ==>
      var p := HeaderIn(f, file, f.ehsize, j);
      cuts[j + 1] == if p.offset < cuts[j] < p.offset + p.filesz then cuts[j] - p.offset else cuts[j]
  }

  /** The stripped file, byte for byte, in terms of the bytes of the original one. */
  ghost predicate Stripped(f: Format, file: Bytes, r: Bytes, size: nat, cut: nat, cuts: seq<nat>, e': Ehdr)
    requires f.ehsize <= |file|
  {
    var e := f.readEhdr(file[..f.ehsize]);
    var tableEnd := e.phoff + TableSize(f, e.phnum);
    // the file is cut behind the last referenced byte that is not zero
    && LastReferenced(f, file, e, size) && LastNonzero(file, size, cut)
    && |r| == (if cut < tableEnd then tableEnd else cut)
    // both headers are written
    && HeaderAfter(e, e', cut) && |f.writeEhdr(e')| == f.ehsize
    && Written(r, f.writeEhdr(e'), e.phoff, tableEnd)
    && Cuts(f, file, e, cut, cuts)
    && SegmentsAfter(f, file, r, e, cuts)
    // nothing else is changed
    && Kept(file, r, f.ehsize, e.phoff, tableEnd)
  }

  // the bytes from the cut to there are zeros, and the one before is not
  ghost predicate LastNonzero(file: Bytes, size: nat, cut: nat) {
    && cut <= size <= |file| && (cut > 0 ==> file[cut - 1] != 0)
    && forall i :: cut <= i < size ==> file[i] == 0
  }

  // at the beginning of the file, but for what the table covers
  ghost predicate Written(r: Bytes, header: Bytes, from: nat, to: nat) {
    forall i :: 0 <= i < |header| && i < |r| && !(from <= i < to) ==> r[i] == header[i]
  }

  // behind the header, but for the table
  ghost predicate Kept(file: Bytes, r: Bytes, ehsize: nat, from: nat, to: nat) {
    forall i :: ehsize <= i < |r| && !(from <= i < to) ==> i < |file| && r[i] == file[i]
  }

  // every program header is written, each after the cut it was compared with
  ghost predicate SegmentsAfter(f: Format, file: Bytes, r: Bytes, e: Ehdr, cuts: seq<nat>)
    requires |cuts| == e.phnum + 1
  {
    forall j: nat :: j < e.phnum ==> SegmentWritten(f, r, e.phoff, j, HeaderIn(f, file, f.ehsize, j), cuts[j])
  }

  ghost predicate SegmentWritten(f: Format, r: Bytes, at: nat, j: nat, p: Phdr, cut: nat) {
    exists p' :: SegmentAfter(p, p', cut) && HeaderAt(f, r, at, j, p')
  }

  ghost predicate HeaderAt(f: Format, r: Bytes, at: nat, j: nat, p: Phdr) {
    var from := at + TableSize(f, j);
    from + f.phentsize <= |r| && r[from..from + f.phentsize] == f.writePhdr(p)
  }

  ghost predicate IsStripped(f: Format, file: Bytes, r: Bytes)
    requires f.ehsize <= |file|
  {
    exists size, cut, cuts, e' :: Stripped(f, file, r, size, cut, cuts, e')
  }

  // these bytes stand there
  ghost predicate StandIn(s: Bytes, from: nat, bytes: Bytes) {
    from + |bytes| <= |s| && s[from..from + |bytes|] == bytes
  }

  lemma {:induction false} TableBytesAt(f: Format, table: seq<Phdr>, j: nat)
    requires FormatOk(f) && j < |table|
    ensures |TableBytes(f.writePhdr, table)| == TableSize(f, |table|) && |f.writePhdr(table[j])| == f.phentsize
    ensures StandIn(TableBytes(f.writePhdr, table), TableSize(f, j), f.writePhdr(table[j]))
  {
    var n := |table| - 1;
    LastHeader(f, table);
    hide *;
    TableGrows(f, n);
    BytesLength(f, table[..n]);
    Appended(TableBytes(f.writePhdr, table[..n]), f.writePhdr(table[n]), TableSize(f, j), f.writePhdr(table[j]));
    if j < n {
      TableBytesAt(f, table[..n], j);
    }
  }

  lemma Appended(a: Bytes, b: Bytes, from: nat, bytes: Bytes)
    ensures StandIn(a + b, |a|, b)
    ensures StandIn(a, from, bytes) ==> StandIn(a + b, from, bytes)
  {
  }

  lemma LastHeader(f: Format, table: seq<Phdr>)
    requires FormatOk(f) && table != []
    ensures var n := |table| - 1;
      && TableBytes(f.writePhdr, table) == TableBytes(f.writePhdr, table[..n]) + f.writePhdr(table[n])
      && |f.writePhdr(table[n])| == f.phentsize
  {
  }

  lemma BytesLength(f: Format, table: seq<Phdr>)
    requires FormatOk(f)
    ensures |TableBytes(f.writePhdr, table)| == TableSize(f, |table|)
  {
    TableBytesLength(f.writePhdr, table, f.phentsize);
  }

  lemma HeadersWritten(f: Format, r: Bytes, at: nat, table: seq<Phdr>, j: nat)
    requires FormatOk(f) && at + TableSize(f, |table|) <= |r| && j < |table|
    requires r[at..at + TableSize(f, |table|)] == TableBytes(f.writePhdr, table)
    ensures HeaderAt(f, r, at, j, table[j])
  {
    hide *;
    TableBytesAt(f, table, j);
    Inside(r, at, TableSize(f, |table|), TableSize(f, j), f.writePhdr(table[j]));
    StandsAt(f, r, at, j, table[j]);
  }

  lemma StandsAt(f: Format, r: Bytes, at: nat, j: nat, p: Phdr)
    requires StandIn(r, at + TableSize(f, j), f.writePhdr(p)) && |f.writePhdr(p)| == f.phentsize
    ensures HeaderAt(f, r, at, j, p)
  {
  }

  lemma Inside(r: Bytes, at: nat, size: nat, from: nat, bytes: Bytes)
    requires at + size <= |r| && StandIn(r[at..at + size], from, bytes)
    ensures StandIn(r, at + from, bytes)
  {
    var s, t := r[at..at + size][from..from + |bytes|], r[at + from..at + from + |bytes|];
    assert |s| == |t| && forall i :: 0 <= i < |s| ==> s[i] == t[i];
  }

  lemma MemorySizeIsLast(f: Format, file: Bytes, was: seq<Phdr>, e: Ehdr)
    requires |was| == e.phnum && forall j: nat :: j < e.phnum ==> was[j] == HeaderIn(f, file, f.ehsize, j)
    ensures LastReferenced(f, file, e, SizeOf(was, f.ehsize, e.phoff, f.phentsize))
  {
    var tableEnd := e.phoff + TableSize(f, e.phnum);
    var size := SizeOf(was, f.ehsize, e.phoff, f.phentsize);
    assert size == GreatestEnd(was, Max(tableEnd, f.ehsize));
    hide HeaderIn, TableSize, GreatestEnd, SizeOf;
    GreatestEndIsLeastBound(was, Max(tableEnd, f.ehsize));
    forall j: nat | j < e.phnum && HeaderIn(f, file, f.ehsize, j).ptype != 0
      ensures HeaderIn(f, file, f.ehsize, j).offset + HeaderIn(f, file, f.ehsize, j).filesz <= size
    {
      assert was[j] in was;
    }
    if size != tableEnd && size != f.ehsize {
      var p :| p in was && p.ptype != PT_NULL && End(p) == size;
      var j: nat :| j < |was| && was[j] == p;
      assert HeaderIn(f, file, f.ehsize, j).ptype != 0;
    }
  }

  lemma CutsAre(f: Format, file: Bytes, was: seq<Phdr>, e: Ehdr, cut: nat) returns (cuts: seq<nat>)
    requires |was| == e.phnum && forall j: nat :: j < e.phnum ==> was[j] == HeaderIn(f, file, f.ehsize, j)
    ensures |cuts| == e.phnum + 1 && Cuts(f, file, e, cut, cuts)
    ensures forall j :: 0 <= j <= e.phnum ==> cuts[j] == CutFor(was, cut, j)
  {
    cuts := seq(e.phnum + 1, j requires 0 <= j <= e.phnum => CutFor(was, cut, j));
    hide HeaderIn;
    forall j: nat | j < e.phnum
      ensures cuts[j + 1] == NextCut(was[j], cuts[j])
    {
    }
  }

  /** What the functions of this module say of a run is what is seen in the file. */
  lemma StripsToStripped(f: Format, file: Bytes, r: Bytes, table: seq<Phdr>)
    requires FormatOk(f) && Readable(f, file)
    requires StripsTo(file, f, EhdrOf(f, file), TableRead(f, file), r, table)
    ensures IsStripped(f, file, r)
  {
    var e, was := EhdrOf(f, file), TableRead(f, file);
    var size := SizeOf(was, f.ehsize, e.phoff, f.phentsize);
    var cut := StrippedLen(file[..size]);
    var e' := SectionsGone(e, cut);
    RunFacts(f, file, e, was, r, table, cut);
    assert e == f.readEhdr(file[..f.ehsize]);
    hide *;
    TableReadIs(f, file);
    MemorySizeIsLast(f, file, was, e);
    var cuts := CutsAre(f, file, was, e, cut);
    HeadersAfter(f, file, e, was, r, table, cut, cuts);
    NothingElse(f, file, e, was, r, table, size, cut);
    AllSeen(f, file, r, size, cut, cuts, e, e');
  }

  lemma RunFacts(f: Format, file: Bytes, e: Ehdr, was: seq<Phdr>, r: Bytes, table: seq<Phdr>, cut: nat)
    requires FormatOk(f) && StripsTo(file, f, e, was, r, table)
    requires var size := SizeOf(was, f.ehsize, e.phoff, f.phentsize); size <= |file| && cut == StrippedLen(file[..size])
    ensures var e' := SectionsGone(e, cut); var tableEnd := e.phoff + TableSize(f, |was|);
      && HeaderAfter(e, e', cut) && |f.writeEhdr(e')| == f.ehsize && |table| == |was| && tableEnd <= |r|
      && Written(r, f.writeEhdr(e'), e.phoff, tableEnd)
      && (forall j :: 0 <= j < |was| ==> table[j] == Trimmed(was[j], CutFor(was, cut, j)))
      && r[e.phoff..tableEnd] == TableBytes(f.writePhdr, table)
  {
    assert |was| * f.phentsize == TableSize(f, |was|);
    hide TableSize, SizeOf, StrippedLen, CutFor, Trimmed, TableBytes, StrippedTo;
  }

  lemma AllSeen(f: Format, file: Bytes, r: Bytes, size: nat, cut: nat, cuts: seq<nat>, e: Ehdr, e': Ehdr)
    requires f.ehsize <= |file| && e == f.readEhdr(file[..f.ehsize])
    requires var tableEnd := e.phoff + TableSize(f, e.phnum);
      && LastReferenced(f, file, e, size) && LastNonzero(file, size, cut)
      && |r| == (if cut < tableEnd then tableEnd else cut)
      && HeaderAfter(e, e', cut) && |f.writeEhdr(e')| == f.ehsize
      && Written(r, f.writeEhdr(e'), e.phoff, tableEnd)
      && Cuts(f, file, e, cut, cuts)
      && SegmentsAfter(f, file, r, e, cuts)
      && Kept(file, r, f.ehsize, e.phoff, tableEnd)
    ensures IsStripped(f, file, r)
  {
    hide LastReferenced, LastNonzero, TableSize, SegmentsAfter, HeaderAfter, Cuts, Written, Kept;
    assert Stripped(f, file, r, size, cut, cuts, e');
  }

  lemma TableReadIs(f: Format, file: Bytes)
    requires Readable(f, file)
    ensures |TableRead(f, file)| == EhdrOf(f, file).phnum
    ensures forall j: nat :: j < EhdrOf(f, file).phnum ==> TableRead(f, file)[j] == HeaderIn(f, file, f.ehsize, j)
  {
    hide TableSize, HeaderIn;
    forall j: nat | j < EhdrOf(f, file).phnum
      ensures TableRead(f, file)[j] == HeaderIn(f, file, f.ehsize, j)
    {
      TableAtIn(f, file, f.ehsize, EhdrOf(f, file).phnum, j);
    }
  }

  lemma HeadersAfter(f: Format, file: Bytes, e: Ehdr, was: seq<Phdr>, r: Bytes, table: seq<Phdr>, cut: nat,
      cuts: seq<nat>)
    requires FormatOk(f) && |table| == |was| == e.phnum && |cuts| == e.phnum + 1
    requires forall j: nat :: j < e.phnum ==> was[j] == HeaderIn(f, file, f.ehsize, j)
    requires forall j :: 0 <= j <= e.phnum ==> cuts[j] == CutFor(was, cut, j)
    requires forall j :: 0 <= j < |was| ==> table[j] == Trimmed(was[j], CutFor(was, cut, j))
    requires e.phoff + TableSize(f, |was|) <= |r| &&
      r[e.phoff..e.phoff + TableSize(f, |was|)] == TableBytes(f.writePhdr, table)
    ensures SegmentsAfter(f, file, r, e, cuts)
  {
    hide HeaderIn, CutFor, Trimmed, TableBytes, FormatOk, TableSize, HeaderAt, SegmentAfter;
    forall j: nat | j < e.phnum
      ensures SegmentWritten(f, r, e.phoff, j, HeaderIn(f, file, f.ehsize, j), cuts[j])
    {
      HeadersWritten(f, r, e.phoff, table, j);
      TrimmedAfter(was[j], cuts[j]);
    }
  }

  lemma TrimmedAfter(p: Phdr, cut: nat)
    ensures SegmentAfter(p, Trimmed(p, cut), cut)
  {
  }

  lemma NothingElse(f: Format, file: Bytes, e: Ehdr, was: seq<Phdr>, r: Bytes, table: seq<Phdr>, size: nat, cut: nat)
    requires StripsTo(file, f, e, was, r, table) && |was| == e.phnum
    requires size == SizeOf(was, f.ehsize, e.phoff, f.phentsize) && size <= |file| && cut == StrippedLen(file[..size])
    ensures var tableEnd := e.phoff + TableSize(f, e.phnum);
      && LastNonzero(file, size, cut)
      && |r| == (if cut < tableEnd then tableEnd else cut)
      && Kept(file, r, f.ehsize, e.phoff, tableEnd)
  {
    var phsize := |was| * f.phentsize;
    assert phsize == TableSize(f, e.phnum);
    assert |r| == Max(cut, e.phoff + phsize) && StrippedTo(file, r, cut, size, f.ehsize, e.phoff, phsize);
    hide StripsTo, TableSize, SizeOf, StrippedLen, StrippedTo;
    LastByte(file, size, cut);
    RestIsKept(file, r, cut, size, f.ehsize, e.phoff, phsize);
  }

  lemma LastByte(file: Bytes, size: nat, cut: nat)
    requires size <= |file| && cut == StrippedLen(file[..size])
    ensures LastNonzero(file, size, cut)
  {
    assert forall i :: cut <= i < size ==> file[..size][i] == 0;
    assert cut > 0 ==> file[..size][cut - 1] != 0;
    hide StrippedLen;
  }

  lemma RestIsKept(file: Bytes, r: Bytes, cut: nat, size: nat, ehsize: nat, phoff: nat, phsize: nat)
    requires StrippedTo(file, r, cut, size, ehsize, phoff, phsize)
    ensures Kept(file, r, ehsize, phoff, phoff + phsize)
  {
    forall i | ehsize <= i < |r| && !(phoff <= i < phoff + phsize)
      ensures i < |file| && r[i] == file[i]
    {
      assert !InHeaders(i, ehsize, phoff, phsize);
    }
  }

  lemma MagicBytes(file: Bytes)
    requires |file| >= 4
    ensures HasMagic(file, 4) <==> file[..4] == [0x7F, 0x45, 0x4C, 0x46]
  {
    assert 'E' as int == 0x45 && 'L' as int == 0x4C && 'F' as int == 0x46;
  }

  lemma ReferencedIff(f: Format, file: Bytes, was: seq<Phdr>, e: Ehdr)
    requires f.ehsize <= |file| && |was| == e.phnum
    requires forall j: nat :: j < e.phnum ==> was[j] == HeaderIn(f, file, f.ehsize, j)
    requires f.ehsize + TableSize(f, e.phnum) <= |file|
    ensures AllThere(f, file, e) <==> SizeOf(was, f.ehsize, e.phoff, f.phentsize) <= |file|
  {
    var start := Max(e.phoff + TableSize(f, e.phnum), f.ehsize);
    GreatestEndIsLeastBound(was, start);
    if AllThere(f, file, e) {
      forall p | p in was && p.ptype != PT_NULL
        ensures End(p) <= |file|
      {
        var j: nat :| j < |was| && was[j] == p;
        assert HeaderIn(f, file, f.ehsize, j).ptype != 0;
      }
    }
    if SizeOf(was, f.ehsize, e.phoff, f.phentsize) <= |file| {
      forall j: nat | j < e.phnum && HeaderIn(f, file, f.ehsize, j).ptype != 0
        ensures HeaderIn(f, file, f.ehsize, j).offset + HeaderIn(f, file, f.ehsize, j).filesz <= |file|
      {
        assert was[j] in was;
      }
    }
  }

  /** The whole run on one file. It fails if the headers cannot be read or what they refer to
      is not there, and then nothing changes. */
  method Strip(file: Bytes, f: Format) returns (ok: bool, r: Bytes, table: seq<Phdr>)
    requires FormatOk(f)
    ensures ok <==> Readable(f, file) && Referenced(f, file) <= |file|
    ensures !ok ==> r == file
    ensures ok ==> StripsTo(file, f, EhdrOf(f, file), TableRead(f, file), r, table)
    ensures ok ==> KeepsSegments(file, f, EhdrOf(f, file), TableRead(f, file), r, table)
    ensures ok <==> Strippable(f, file)
    ensures ok ==> IsStripped(f, file, r)
  {
    StrippableIff(f, file);
    hide Strippable, IsStripped;
    r, table := file, [];
    if |file| < f.ehsize || !HasMagic(file, f.ehsize) {
      return false, r, table;
    }
    var e := f.readEhdr(file[..f.ehsize]);
    if e.ehsize != f.ehsize || e.phentsize != f.phentsize || !e.loadable {
      return false, r, table;
    }
    if e.phoff == 0 || e.phnum == 0 || f.ehsize + e.phnum * f.phentsize > |file| {
      return false, r, table;
    }
    var phdrs := ReadTable(f, file, e.phnum);
    ok, r := StripTable(file, f, e, phdrs);
    table := phdrs[..];
    if ok {
      StripsToStripped(f, file, r, table);
    }
  }

  // what follows reading the headers
  method StripTable(file: Bytes, f: Format, e: Ehdr, table: array<Phdr>) returns (ok: bool, r: Bytes)
    requires FormatOk(f) && f.ehsize <= |file| && HasMagic(file, f.ehsize)
    modifies table
    ensures ok <==> SizeOf(old(table[..]), f.ehsize, e.phoff, f.phentsize) <= |file|
    ensures !ok ==> r == file
    ensures ok ==> StripsTo(file, f, e, old(table[..]), r, table[..])
    ensures ok ==> KeepsSegments(file, f, e, old(table[..]), r, table[..])
  {
    hide CutFor, StrippedLen, MemorySize, KeepsSegments, Trimmed, TableBytes;
    ghost var was := table[..];
    ghost var phsize := |was| * f.phentsize;
    var size := GetMemorySize(table[..], f.ehsize, e.phoff, f.phentsize);
    MemorySizeBounds(was, f.ehsize, e.phoff + phsize);
    var cut;
    ok, cut := TruncateZeros(file, size);
    if !ok {
      return false, file;
    }
    var now := SectionsGone(e, cut);
    ModifyHeaders(table, cut);
    var phdrs := TableBytes(f.writePhdr, table[..]);
    TableBytesLength(f.writePhdr, table[..], f.phentsize);
    r := Commit(file, f.writeEhdr(now), e.phoff, phdrs, cut);
    assert forall i :: cut <= i < size ==> file[..size][i] == 0;
    assert StrippedTo(file, r, cut, size, f.ehsize, e.phoff, phsize);
    assert r[e.phoff..e.phoff + phsize] == phdrs;
    AllKept(file, f, e, was, r, table[..], size, cut);
  }

  lemma AllKept(file: Bytes, f: Format, e: Ehdr, was: seq<Phdr>, r: Bytes, table: seq<Phdr>, size: nat, cut: nat)
    requires size == SizeOf(was, f.ehsize, e.phoff, f.phentsize) && size <= |file| && cut == StrippedLen(file[..size])
    requires StrippedTo(file, r, cut, size, f.ehsize, e.phoff, |was| * f.phentsize) && |table| == |was|
    requires forall j :: 0 <= j < |was| ==> table[j] == Trimmed(was[j], CutFor(was, cut, j))
    ensures KeepsSegments(file, f, e, was, r, table)
  {
    var phsize := |was| * f.phentsize;
    EndsBelow(was, f, e);
    hide CutFor, StrippedLen, SizeOf, SameSegment, Trimmed, StrippedTo, Unharmed, End;
    EachKept(file, r, size, f.ehsize, e.phoff, phsize, cut, was, table);
  }

  lemma EndsBelow(was: seq<Phdr>, f: Format, e: Ehdr)
    ensures forall p :: p in was && p.ptype != PT_NULL ==> End(p) <= SizeOf(was, f.ehsize, e.phoff, f.phentsize)
  {
    MemorySizeBounds(was, f.ehsize, e.phoff + |was| * f.phentsize);
  }

  lemma EachKept(file: Bytes, r: Bytes, size: nat, ehsize: nat, phoff: nat, phsize: nat, cut: nat, was: seq<Phdr>,
      table: seq<Phdr>)
    requires StrippedTo(file, r, cut, size, ehsize, phoff, phsize) && |table| == |was|
    requires forall p :: p in was && p.ptype != PT_NULL ==> End(p) <= size
    requires forall j :: 0 <= j < |was| ==> table[j] == Trimmed(was[j], CutFor(was, cut, j))
    ensures forall j :: 0 <= j < |was| && was[j].ptype != PT_NULL && Unharmed(was, cut, j) ==>
      SameSegment(file, was[j], r, table[j], ehsize, phoff, phsize)
  {
    hide *;
    forall j | 0 <= j < |was| && was[j].ptype != PT_NULL && Unharmed(was, cut, j)
      ensures SameSegment(file, was[j], r, table[j], ehsize, phoff, phsize)
    {
      assert was[j] in was;
      SegmentsKept(file, r, size, ehsize, phoff, phsize, cut, was, j);
    }
  }

  /** What is read is the table that the ELF header refers to if and only if the same bytes
      stand in both places: in particular where that table follows the ELF header. */
  lemma RightTableIff(f: Format, file: Bytes)
    requires FormatOk(f) && Readable(f, file)
    requires EhdrOf(f, file).phoff + TableSize(f, EhdrOf(f, file).phnum) <= |file|
    ensures var e := EhdrOf(f, file); var n := TableSize(f, e.phnum);
      && (TableRead(f, file) == TableAt(f, file, e.phoff, e.phnum)
          <==> file[f.ehsize..f.ehsize + n] == file[e.phoff..e.phoff + n])
      && (e.phoff == f.ehsize ==> TableRead(f, file) == TableAt(f, file, e.phoff, e.phnum))
  {
    var e := EhdrOf(f, file);
    SameTableIff(f, file, f.ehsize, e.phoff, e.phnum);
  }

  /** A file that is destroyed: the one program header stands at 84, zeros behind the ELF
      header, where it is read. What it loads is cut off. */
  lemma WrongTable(f: Format, file: Bytes, p: Phdr, r: Bytes, table: seq<Phdr>)
    requires FormatOk(f) && f.ehsize == 52 && f.phentsize == 32 && |file| == 200 && Readable(f, file)
    requires EhdrOf(f, file).phoff == 84 && EhdrOf(f, file).phnum == 1
    requires f.readPhdr(file[84..116]) == p && p.ptype == 1 && p.offset == 116 && p.filesz == 84 && p.memsz == 84
    requires f.readPhdr(file[52..84]).ptype == PT_NULL && file[116] != 0
    requires StripsTo(file, f, EhdrOf(f, file), TableRead(f, file), r, table)
    ensures TableAt(f, file, 84, 1) == [p] && TableRead(f, file) != [p] && |r| == 116
    ensures forall p': Phdr :: p'.offset == 116 ==> !SameSegment(file, p, r, p', 52, 84, 32)
  {
    var was := TableRead(f, file);
    assert TableAt(f, file, 84, 0) == [] && TableAt(f, file, 52, 0) == [];
    assert was == [f.readPhdr(file[52..84])] && was[..0] == [];
    assert GreatestEnd(was[..0], 116) == 116;
    assert SizeOf(was, 52, 84, 32) == 116;
    forall p': Phdr | p'.offset == 116
      ensures !SameSegment(file, p, r, p', 52, 84, 32)
    {
      assert MemoryByte(file, p, 0) == file[116] && MemoryByte(r, p', 0) == 0;
      assert !InHeaders(p.offset + 0, 52, 84, 32);
    }
  }

  /** One header over the cut is enough to lose data, in every run on a file like this: the
      segment at 200 lies whole before the cut at 300, but is compared with 300 - 150. */
  lemma LaterSegmentLost(f: Format, file: Bytes, e: Ehdr, was: seq<Phdr>, r: Bytes, table: seq<Phdr>)
    requires f.ehsize == 52 && f.phentsize == 32 && e.phoff == 52 && HasMagic(file, 52) && |file| == 400
    requires file[200] != 0 && file[299] != 0 && forall i :: 300 <= i < 400 ==> file[i] == 0
    requires |was| == 2 && was[0].(other := []) == Phdr(1, 150, 250, 250, []) &&
      was[1].(other := []) == Phdr(1, 200, 50, 50, [])
    requires StripsTo(file, f, e, was, r, table)
    ensures |r| == 300 && !SameSegment(file, was[1], r, table[1], 52, 52, 64)
  {
    assert was[..1] == [was[0]] && was[..1][..0] == [];
    assert GreatestEnd(was[..1], 116) == 400;
    assert MemorySize(was, 52, 116) == 400;
    StrippedUnique(file[..400], 300);
    assert CutFor(was, 300, 1) == NextCut(was[0], CutFor(was, 300, 0)) == 150;
    SegmentKeptIff(file, r, 400, 52, 52, 64, 300, was, 1);
  }
}
