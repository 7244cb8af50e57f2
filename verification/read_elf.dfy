/**
 * ELF64 header and program-header decoding, modelled after
 * src/read_elf.cpp.
 *
 * The source reads a whole file into a buffer and reinterprets it as the
 * packed structs `elf_hdr` and `elf_phdr` on a little-endian machine.  Here
 * the buffer is a sequence of bytes, or `None` when reading the file failed.
 * A packed struct is a list of little-endian fields laid end to end.  The
 * header decoder reads at offsets derived from the field sizes; the other
 * readers use constant offsets, which `Layout` proves equal to the derived
 * ones.  An encoder of the same layout shows that decoding gives every
 * field back.
 */
module ElfReader {
  import opened MachineWords

  datatype Option<T> = None | Some(value: T)

  type Bytes = seq<Byte>

  /** Length of `e_ident`. */
  const ELF_NIDENT: nat := 16

  /** Program headers of this type are loaded into memory. */
  const PT_LOAD: nat := 1

  /** The fields of `elf_hdr` after `e_ident`, in bytes, from `e_type` to `e_shstrndx`. */
  const HEADER_FIELD_SIZES: seq<nat> := [2, 2, 4, 8, 8, 8, 4, 2, 2, 2, 2, 2, 2]

  /** The fields of `elf_phdr`, in bytes, from `p_type` to `p_align`. */
  const PHDR_FIELD_SIZES: seq<nat> := [4, 4, 8, 8, 8, 8, 8, 8]

  /** `sizeof(elf_hdr)` and `sizeof(elf_phdr)` (both structs are packed). */
  const ELF_HDR_SIZE: nat := 64
  const ELF_PHDR_SIZE: nat := 56

  /** Byte offsets of the fields the two functions read. */
  const E_ENTRY: nat := 24
  const E_PHOFF: nat := 32
  const E_PHENTSIZE: nat := 54
  const E_PHNUM: nat := 56
  const P_TYPE: nat := 0
  const P_MEMSZ: nat := 40

  function Pow256(n: nat): (p: nat)
    ensures p >= 1
  {
    if n == 0 then 1 else 256 * Pow256(n - 1)
  }

  lemma Pow256Values()
    ensures Pow256(2) == 0x1_0000 && Pow256(4) == TWO_TO_32 && Pow256(8) == TWO_TO_64
  {
    assert Pow256(1) == 256;
    assert Pow256(2) == 0x1_0000;
    assert Pow256(4) == TWO_TO_32 by {
      assert Pow256(3) == 0x100_0000;
    }
    assert Pow256(8) == TWO_TO_64 by {
      assert Pow256(5) == 0x100_0000_0000;
      assert Pow256(6) == 0x1_0000_0000_0000;
      assert Pow256(7) == 0x100_0000_0000_0000;
    }
  }

  /** The `n` low bytes of `v`, least significant first (x86-64 byte order). */
  function ToLittleEndian(v: nat, n: nat): (b: Bytes)
    ensures |b| == n
  {
    if n == 0 then [] else [v % 256] + ToLittleEndian(v / 256, n - 1)
  }

  /** The `n`-byte little-endian field at byte `offset` of `buf`. */
  function Field(buf: Bytes, offset: nat, n: nat): nat
    requires offset + n <= |buf|
    decreases n
  {
    if n == 0 then 0 else buf[offset] + 256 * Field(buf, offset + 1, n - 1)
  }

  /** An `n`-byte field holds less than 256^n. */
  lemma {:induction false} FieldBound(buf: Bytes, offset: nat, n: nat)
    requires offset + n <= |buf|
    ensures Field(buf, offset, n) < Pow256(n)
    decreases n
  {
    if n > 0 {
      FieldBound(buf, offset + 1, n - 1);
    }
  }

  /** Reading back the bytes of a value that fits gives the value. */
  lemma {:induction false} FieldOfEncoding(before: Bytes, v: nat, n: nat, after: Bytes)
    requires v < Pow256(n)
    ensures Field(before + ToLittleEndian(v, n) + after, |before|, n) == v
    decreases n
  {
    if n > 0 {
      var head := [v % 256];
      var tail := ToLittleEndian(v / 256, n - 1);
      FieldOfEncoding(before + head, v / 256, n - 1, after);
      assert before + ToLittleEndian(v, n) + after == before + head + tail + after;
    }
  }

  /** Writing back the value of a field gives its bytes. */
  lemma {:induction false} EncodingOfField(buf: Bytes, offset: nat, n: nat)
    requires offset + n <= |buf|
    ensures ToLittleEndian(Field(buf, offset, n), n) == buf[offset..offset + n]
    decreases n
  {
    if n > 0 {
      EncodingOfField(buf, offset + 1, n - 1);
      var v := Field(buf, offset, n);
      assert v % 256 == buf[offset] && v / 256 == Field(buf, offset + 1, n - 1);
      assert buf[offset..offset + n] == [buf[offset]] + buf[offset + 1..offset + n];
    }
  }

  /** A field depends only on its own bytes, wherever the buffer around it starts. */
  lemma {:induction false} FieldAfter(before: Bytes, buf: Bytes, offset: nat, n: nat)
    requires offset + n <= |buf|
    ensures Field(before + buf, |before| + offset, n) == Field(buf, offset, n)
    decreases n
  {
    if n > 0 {
      FieldAfter(before, buf, offset + 1, n - 1);
    }
  }

  /** Where field `k` of a packed struct with these field sizes starts. */
  function Offset(sizes: seq<nat>, k: nat): nat
    requires k <= |sizes|
  {
    if k == 0 then 0 else Offset(sizes, k - 1) + sizes[k - 1]
  }

  /** The size of a packed struct with these field sizes. */
  function StructSize(sizes: seq<nat>): nat
  {
    Offset(sizes, |sizes|)
  }

  /** A field of a struct ends inside it. */
  lemma {:induction false} FieldInside(sizes: seq<nat>, k: nat, m: nat)
    requires k < m <= |sizes|
    ensures Offset(sizes, k) + sizes[k] <= Offset(sizes, m)
  {
    if k + 1 < m {
      FieldInside(sizes, k, m - 1);
    }
  }

  /** Leading fields do not move when later ones are dropped. */
  lemma {:induction false} OffsetOfPrefix(sizes: seq<nat>, m: nat, k: nat)
    requires k <= m <= |sizes|
    ensures Offset(sizes[..m], k) == Offset(sizes, k)
  {
    if k > 0 {
      OffsetOfPrefix(sizes, m, k - 1);
    }
  }

  /** The bytes of a packed struct holding `values` in fields of these sizes. */
  function EncodeFields(values: seq<nat>, sizes: seq<nat>): (b: Bytes)
    requires |values| == |sizes|
    ensures |b| == StructSize(sizes)
  {
    if sizes == [] then []
    else
      var n := |sizes| - 1;
      OffsetOfPrefix(sizes, n, n);
      EncodeFields(values[..n], sizes[..n]) + ToLittleEndian(values[n], sizes[n])
  }

  /** Field `k` of an encoded struct, whatever follows it, is `values[k]` when that fits. */
  lemma {:induction false} EncodedField(values: seq<nat>, sizes: seq<nat>, rest: Bytes, k: nat)
    requires |values| == |sizes| && k < |sizes|
    requires values[k] < Pow256(sizes[k])
    ensures Offset(sizes, k) + sizes[k] <= StructSize(sizes)
    ensures Field(EncodeFields(values, sizes) + rest, Offset(sizes, k), sizes[k]) == values[k]
  {
    FieldInside(sizes, k, |sizes|);
    var n := |sizes| - 1;
    var front := EncodeFields(values[..n], sizes[..n]);
    var last := ToLittleEndian(values[n], sizes[n]);
    OffsetOfPrefix(sizes, n, n);
    if k == n {
      FieldOfEncoding(front, values[n], sizes[n], rest);
    } else {
      EncodedField(values[..n], sizes[..n], last + rest, k);
      OffsetOfPrefix(sizes, n, k);
      assert EncodeFields(values, sizes) + rest == front + (last + rest);
    }
  }

  /**
   * The layout of the two packed structs: `e_entry` at 24, `e_phoff` at
   * 32, `e_phentsize` at 54 and `e_phnum` at 56 of a 64-byte header;
   * the eight fields of a 56-byte program header at 0, 4, 8, 16, 24, 32,
   * 40 and 48, `p_type` first and `p_memsz` seventh.
   */
  lemma Layout()
    ensures ELF_NIDENT + Offset(HEADER_FIELD_SIZES, 3) == E_ENTRY
    ensures ELF_NIDENT + Offset(HEADER_FIELD_SIZES, 4) == E_PHOFF
    ensures ELF_NIDENT + Offset(HEADER_FIELD_SIZES, 8) == E_PHENTSIZE
    ensures ELF_NIDENT + Offset(HEADER_FIELD_SIZES, 9) == E_PHNUM
    ensures ELF_NIDENT + StructSize(HEADER_FIELD_SIZES) == ELF_HDR_SIZE
    ensures Offset(PHDR_FIELD_SIZES, 0) == P_TYPE
    ensures Offset(PHDR_FIELD_SIZES, 1) == 4 && Offset(PHDR_FIELD_SIZES, 2) == 8
    ensures Offset(PHDR_FIELD_SIZES, 3) == 16 && Offset(PHDR_FIELD_SIZES, 4) == 24
    ensures Offset(PHDR_FIELD_SIZES, 5) == 32 && Offset(PHDR_FIELD_SIZES, 6) == P_MEMSZ
    ensures Offset(PHDR_FIELD_SIZES, 7) == 48
    ensures StructSize(PHDR_FIELD_SIZES) == ELF_PHDR_SIZE
  {
    var h := HEADER_FIELD_SIZES;
    assert Offset(h, 1) == 2 && Offset(h, 2) == 4 && Offset(h, 3) == 8;
    assert Offset(h, 4) == 16 && Offset(h, 5) == 24 && Offset(h, 6) == 32;
    assert Offset(h, 7) == 36 && Offset(h, 8) == 38 && Offset(h, 9) == 40;
    assert Offset(h, 10) == 42 && Offset(h, 11) == 44 && Offset(h, 12) == 46;
    var p := PHDR_FIELD_SIZES;
    assert Offset(p, 1) == 4 && Offset(p, 2) == 8 && Offset(p, 3) == 16;
    assert Offset(p, 4) == 24 && Offset(p, 5) == 32 && Offset(p, 6) == 40;
    assert Offset(p, 7) == 48;
  }

  type Ident = s: Bytes | |s| == ELF_NIDENT witness seq(ELF_NIDENT, _ => 0)

  /** `elf_hdr`. */
  datatype ElfHeader = ElfHeader(
    ident: Ident, etype: UInt16, machine: UInt16, version: UInt32,
    entry: UInt64, phoff: UInt64, shoff: UInt64, flags: UInt32,
    ehsize: UInt16, phentsize: UInt16, phnum: UInt16,
    shentsize: UInt16, shnum: UInt16, shstrndx: UInt16)

  /** `elf_phdr`. */
  datatype ProgramHeader = ProgramHeader(
    ptype: UInt32, flags: UInt32, offset: UInt64, vaddr: UInt64,
    paddr: UInt64, filesz: UInt64, memsz: UInt64, align: UInt64)

  /** The numeric fields of a header, in layout order. */
  function HeaderValues(h: ElfHeader): seq<nat>
  {
    [h.etype, h.machine, h.version, h.entry, h.phoff, h.shoff, h.flags,
     h.ehsize, h.phentsize, h.phnum, h.shentsize, h.shnum, h.shstrndx]
  }

  /** The fields of a program header, in layout order. */
  function PhdrValues(p: ProgramHeader): seq<nat>
  {
    [p.ptype, p.flags, p.offset, p.vaddr, p.paddr, p.filesz, p.memsz, p.align]
  }

  /** Numeric field `k` of the header at the start of `buf`. */
  function HeaderField(buf: Bytes, k: nat): (v: nat)
    requires k < |HEADER_FIELD_SIZES| && |buf| >= ELF_HDR_SIZE
    ensures v < Pow256(HEADER_FIELD_SIZES[k])
  {
    FieldInside(HEADER_FIELD_SIZES, k, |HEADER_FIELD_SIZES|);
    Layout();
    FieldBound(buf, ELF_NIDENT + Offset(HEADER_FIELD_SIZES, k), HEADER_FIELD_SIZES[k]);
    Field(buf, ELF_NIDENT + Offset(HEADER_FIELD_SIZES, k), HEADER_FIELD_SIZES[k])
  }

  /** Field `k` of the program header at byte `at` of `buf`. */
  function PhdrField(buf: Bytes, at: nat, k: nat): (v: nat)
    requires k < |PHDR_FIELD_SIZES| && at + ELF_PHDR_SIZE <= |buf|
    ensures v < Pow256(PHDR_FIELD_SIZES[k])
  {
    FieldInside(PHDR_FIELD_SIZES, k, |PHDR_FIELD_SIZES|);
    Layout();
    FieldBound(buf, at + Offset(PHDR_FIELD_SIZES, k), PHDR_FIELD_SIZES[k]);
    Field(buf, at + Offset(PHDR_FIELD_SIZES, k), PHDR_FIELD_SIZES[k])
  }

  /** The header a buffer of at least `sizeof(elf_hdr)` bytes starts with. */
  function DecodeHeader(buf: Bytes): ElfHeader
    requires |buf| >= ELF_HDR_SIZE
  {
    Pow256Values();
    ElfHeader(buf[..ELF_NIDENT],
      HeaderField(buf, 0), HeaderField(buf, 1), HeaderField(buf, 2), HeaderField(buf, 3),
      HeaderField(buf, 4), HeaderField(buf, 5), HeaderField(buf, 6), HeaderField(buf, 7),
      HeaderField(buf, 8), HeaderField(buf, 9), HeaderField(buf, 10), HeaderField(buf, 11),
      HeaderField(buf, 12))
  }

  /** The program header copied out of `buf` at byte `at`. */
  function DecodePhdr(buf: Bytes, at: nat): ProgramHeader
    requires at + ELF_PHDR_SIZE <= |buf|
  {
    Pow256Values();
    FieldBound(buf, at, 4); FieldBound(buf, at + 4, 4);
    FieldBound(buf, at + 8, 8); FieldBound(buf, at + 16, 8);
    FieldBound(buf, at + 24, 8); FieldBound(buf, at + 32, 8);
    FieldBound(buf, at + 40, 8); FieldBound(buf, at + 48, 8);
    ProgramHeader(
      Field(buf, at, 4), Field(buf, at + 4, 4), Field(buf, at + 8, 8), Field(buf, at + 16, 8),
      Field(buf, at + 24, 8), Field(buf, at + 32, 8), Field(buf, at + 40, 8), Field(buf, at + 48, 8))
  }

  function EncodeHeader(h: ElfHeader): (b: Bytes)
    ensures |b| == ELF_HDR_SIZE
  {
    Layout();
    h.ident + EncodeFields(HeaderValues(h), HEADER_FIELD_SIZES)
  }

  function EncodePhdr(p: ProgramHeader): (b: Bytes)
    ensures |b| == ELF_PHDR_SIZE
  {
    Layout();
    EncodeFields(PhdrValues(p), PHDR_FIELD_SIZES)
  }

  lemma HeaderFieldOfImage(h: ElfHeader, rest: Bytes, k: nat)
    requires k < |HEADER_FIELD_SIZES|
    ensures HeaderField(EncodeHeader(h) + rest, k) == HeaderValues(h)[k]
  {
    Pow256Values();
    var fields := EncodeFields(HeaderValues(h), HEADER_FIELD_SIZES);
    EncodedField(HeaderValues(h), HEADER_FIELD_SIZES, rest, k);
    FieldAfter(h.ident, fields + rest, Offset(HEADER_FIELD_SIZES, k), HEADER_FIELD_SIZES[k]);
    assert EncodeHeader(h) + rest == h.ident + (fields + rest);
  }

  /** A header written out and read back, whatever follows it, is the same header. */
  lemma HeaderRoundTrip(h: ElfHeader, rest: Bytes)
    ensures DecodeHeader(EncodeHeader(h) + rest) == h
  {
    var buf := EncodeHeader(h) + rest;
    forall k | 0 <= k < |HEADER_FIELD_SIZES|
      ensures HeaderField(buf, k) == HeaderValues(h)[k]
    {
      HeaderFieldOfImage(h, rest, k);
    }
    assert buf[..ELF_NIDENT] == h.ident;
  }

  lemma PhdrFieldOfImage(before: Bytes, p: ProgramHeader, after: Bytes, k: nat)
    requires k < |PHDR_FIELD_SIZES|
    ensures PhdrField(before + EncodePhdr(p) + after, |before|, k) == PhdrValues(p)[k]
  {
    Pow256Values();
    var fields := EncodePhdr(p);
    EncodedField(PhdrValues(p), PHDR_FIELD_SIZES, after, k);
    FieldAfter(before, fields + after, Offset(PHDR_FIELD_SIZES, k), PHDR_FIELD_SIZES[k]);
    assert before + fields + after == before + (fields + after);
  }

  /** A program header written out at `|before|` and copied back is the same. */
  lemma PhdrRoundTrip(before: Bytes, p: ProgramHeader, after: Bytes)
    ensures DecodePhdr(before + EncodePhdr(p) + after, |before|) == p
  {
    Layout();
    PhdrFieldOfImage(before, p, after, 0);
    PhdrFieldOfImage(before, p, after, 1);
    PhdrFieldOfImage(before, p, after, 2);
    PhdrFieldOfImage(before, p, after, 3);
    PhdrFieldOfImage(before, p, after, 4);
    PhdrFieldOfImage(before, p, after, 5);
    PhdrFieldOfImage(before, p, after, 6);
    PhdrFieldOfImage(before, p, after, 7);
  }

  // ---------------------------------------------------------------------
  // entry_point

  /**
   * `entry_point`: the 64-bit field at byte 24 of a file that could be
   * read, 0 when reading failed.  The source does no length check, so a
   * file must hold at least the bytes up to the end of `e_entry`.
   */
  function EntryPoint(file: Option<Bytes>): (r: UInt64)
    requires file.Some? ==> |file.value| >= E_ENTRY + 8
    ensures file.None? ==> r == 0
    ensures file.Some? ==> r == Field(file.value, E_ENTRY, 8)
    ensures file.Some? && |file.value| >= ELF_HDR_SIZE ==> r == DecodeHeader(file.value).entry
  {
    match file
    case None => 0
    case Some(buf) =>
      Pow256Values();
      Layout();
      FieldBound(buf, E_ENTRY, 8);
      Field(buf, E_ENTRY, 8)
  }

  /** The entry point of a file that starts with header `h` is `h.entry`. */
  lemma EntryPointOfImage(h: ElfHeader, rest: Bytes)
    ensures EntryPoint(Some(EncodeHeader(h) + rest)) == h.entry
  {
    HeaderRoundTrip(h, rest);
  }

  // ---------------------------------------------------------------------
  // space

  /** The header fields `space` reads: `e_phoff`, `e_phentsize` and `e_phnum`. */
  function PhOff(buf: Bytes): nat
    requires |buf| >= E_PHNUM + 2
  {
    Layout();
    Field(buf, E_PHOFF, 8)
  }

  function PhEntSize(buf: Bytes): nat
    requires |buf| >= E_PHNUM + 2
  {
    Layout();
    Field(buf, E_PHENTSIZE, 2)
  }

  function PhNum(buf: Bytes): nat
    requires |buf| >= E_PHNUM + 2
  {
    Layout();
    Field(buf, E_PHNUM, 2)
  }

  /** The three fields `space` reads are the header's `e_phoff`, `e_phentsize` and `e_phnum`. */
  lemma TableFieldsOfHeader(buf: Bytes)
    requires |buf| >= ELF_HDR_SIZE
    ensures PhOff(buf) == DecodeHeader(buf).phoff
    ensures PhEntSize(buf) == DecodeHeader(buf).phentsize
    ensures PhNum(buf) == DecodeHeader(buf).phnum
  {
  }

  /** Where entry `i` of a table at `phoff` with entries `stride` bytes apart starts. */
  function EntryStart(phoff: nat, stride: nat, i: nat): nat
  {
    if i == 0 then phoff else EntryStart(phoff, stride, i - 1) + stride
  }

  /** That is `phoff + i * stride`, as the source computes it. */
  lemma {:induction false} EntryStartIsProduct(phoff: nat, stride: nat, i: nat)
    ensures EntryStart(phoff, stride, i) == phoff + i * stride
  {
    if i > 0 {
      EntryStartIsProduct(phoff, stride, i - 1);
      assert (i - 1) * stride + stride == i * stride;
    }
  }

  lemma {:induction false} EntryStartMonotone(phoff: nat, stride: nat, i: nat, j: nat)
    requires i <= j
    ensures EntryStart(phoff, stride, i) <= EntryStart(phoff, stride, j)
  {
    if i < j {
      EntryStartMonotone(phoff, stride, i, j - 1);
    }
  }

  /** All `n` entries of the table lie inside `buf` (the last one reaches furthest). */
  predicate TableInBounds(buf: Bytes, phoff: nat, stride: nat, n: nat)
  {
    n == 0 || EntryStart(phoff, stride, n - 1) + ELF_PHDR_SIZE <= |buf|
  }

  /**
   * What `space` demands of a file that could be read: the header fields it
   * reads and every program header it copies lie inside the buffer, and
   * `i * e_phentsize` does not overflow `int`.
   */
  predicate SpaceReadable(buf: Bytes)
  {
    |buf| >= E_PHNUM + 2 &&
    TableInBounds(buf, PhOff(buf), PhEntSize(buf), PhNum(buf)) &&
    (PhNum(buf) == 0 || EntryStart(0, PhEntSize(buf), PhNum(buf) - 1) < 0x8000_0000)
  }

  /** What one program header adds to the memory image. */
  function Contribution(p: ProgramHeader): nat
  {
    if p.ptype == PT_LOAD then p.memsz else 0
  }

  /** The sum of `p_memsz` over the `PT_LOAD` headers of `ps`. */
  function LoadSize(ps: seq<ProgramHeader>): nat
  {
    if ps == [] then 0 else LoadSize(ps[..|ps| - 1]) + Contribution(ps[|ps| - 1])
  }

  /** What the entry at byte `at` adds: its `p_memsz` when its `p_type` is `PT_LOAD`. */
  function EntryLoad(buf: Bytes, at: nat): nat
    requires at + ELF_PHDR_SIZE <= |buf|
  {
    if Field(buf, at + P_TYPE, 4) == PT_LOAD then Field(buf, at + P_MEMSZ, 8) else 0
  }

  /** That is the contribution of the whole program header copied from `at`. */
  lemma ContributionOfEntry(buf: Bytes, at: nat)
    requires at + ELF_PHDR_SIZE <= |buf|
    ensures Contribution(DecodePhdr(buf, at)) == EntryLoad(buf, at)
  {
  }

  /** The load size of the first `n` entries of the table, entry `i` at `phoff + i * stride`. */
  function TableLoad(buf: Bytes, phoff: nat, stride: nat, n: nat): nat
    requires TableInBounds(buf, phoff, stride, n)
  {
    if n == 0 then 0
    else
      (if n >= 2 then EntryStartMonotone(phoff, stride, n - 2, n - 1); 0 else 0) +
      TableLoad(buf, phoff, stride, n - 1) + EntryLoad(buf, EntryStart(phoff, stride, n - 1))
  }

  /** One more entry adds what it loads. */
  lemma TableLoadStep(buf: Bytes, phoff: nat, stride: nat, i: nat)
    requires TableInBounds(buf, phoff, stride, i + 1)
    ensures TableInBounds(buf, phoff, stride, i)
    ensures TableLoad(buf, phoff, stride, i + 1) ==
      TableLoad(buf, phoff, stride, i) + EntryLoad(buf, EntryStart(phoff, stride, i))
  {
    if i >= 1 {
      EntryStartMonotone(phoff, stride, i - 1, i);
    }
  }

  /** `space` as a function: the load size modulo 2^64, or 0 when reading failed. */
  function SpaceOf(file: Option<Bytes>): UInt64
    requires file.Some? ==> SpaceReadable(file.value)
  {
    match file
    case None => 0
    case Some(buf) => TableLoad(buf, PhOff(buf), PhEntSize(buf), PhNum(buf)) % TWO_TO_64
  }

  /**
   * `phdr_start + i * program_header_entity_size`: where the loop of
   * `space` copies entry `i` from.
   */
  method EntryOffset(phoff: nat, stride: nat, i: nat) returns (at: nat)
    ensures at == EntryStart(phoff, stride, i)
  {
    EntryStartIsProduct(phoff, stride, i);
    at := phoff + i * stride;
  }

  /**
   * `space`: walk the `e_phnum` program headers, `e_phentsize` bytes apart
   * from `e_phoff`, copying each one out and adding `p_memsz` of each
   * `PT_LOAD` one to a `uint64_t`.
   */
  method Space(file: Option<Bytes>) returns (res: UInt64)
    requires file.Some? ==> SpaceReadable(file.value)
    ensures res == SpaceOf(file)
  {
    if file.None? {
      return 0;
    }
    var buf := file.value;
    var entitySize := PhEntSize(buf);
    var count := PhNum(buf);
    var phdrStart := PhOff(buf);
    res := SumLoads(buf, phdrStart, entitySize, count);
  }

  /**
   * The loop of `space`: copy entry `i` out of the table and add its
   * `p_memsz` to the `uint64_t` sum when it is a `PT_LOAD` header.
   */
  method SumLoads(buf: Bytes, phdrStart: nat, entitySize: nat, count: nat) returns (res: UInt64)
    requires TableInBounds(buf, phdrStart, entitySize, count)
    ensures res == TableLoad(buf, phdrStart, entitySize, count) % TWO_TO_64
  {
    res := 0;
    var i := 0;
    while i < count
      invariant 0 <= i <= count
      invariant TableInBounds(buf, phdrStart, entitySize, i)
      invariant res == TableLoad(buf, phdrStart, entitySize, i) % TWO_TO_64
    {
      var at := EntryOffset(phdrStart, entitySize, i);
      SumStep(buf, phdrStart, entitySize, i, count, res);
      res := AddEntry(buf, at, res);
      i := i + 1;
    }
  }

  /**
   * The body of that loop: copy the program header at byte `at` out of the
   * buffer and add its `p_memsz` to the `uint64_t` sum when it is `PT_LOAD`.
   */
  method AddEntry(buf: Bytes, at: nat, sum: UInt64) returns (res: UInt64)
    requires at + ELF_PHDR_SIZE <= |buf|
    ensures res == (sum + Contribution(DecodePhdr(buf, at))) % TWO_TO_64
  {
    var phdr := DecodePhdr(buf, at);
    res := sum;
    if phdr.ptype == PT_LOAD {
      res := (res + phdr.memsz) % TWO_TO_64;
    }
  }

  /**
   * One turn of the loop of `space`: entry `i` lies inside the buffer, and
   * adding what it contributes keeps the running sum equal to the table's
   * load size modulo 2^64.
   */
  lemma SumStep(buf: Bytes, phoff: nat, stride: nat, i: nat, count: nat, res: nat)
    requires i < count && TableInBounds(buf, phoff, stride, count)
    requires TableInBounds(buf, phoff, stride, i) && res == TableLoad(buf, phoff, stride, i) % TWO_TO_64
    ensures EntryStart(phoff, stride, i) + ELF_PHDR_SIZE <= |buf|
    ensures TableInBounds(buf, phoff, stride, i + 1)
    ensures (res + Contribution(DecodePhdr(buf, EntryStart(phoff, stride, i)))) % TWO_TO_64 ==
            TableLoad(buf, phoff, stride, i + 1) % TWO_TO_64
  {
    EntryStartMonotone(phoff, stride, i, count - 1);
    ContributionOfEntry(buf, EntryStart(phoff, stride, i));
    TableLoadStep(buf, phoff, stride, i);
    AddModulo(TableLoad(buf, phoff, stride, i), EntryLoad(buf, EntryStart(phoff, stride, i)));
  }

  lemma AddModulo(a: nat, c: nat)
    ensures (a % TWO_TO_64 + c) % TWO_TO_64 == (a + c) % TWO_TO_64
  {
  }

  // ---------------------------------------------------------------------
  // Properties of space

  /** The load size of two tables end to end is the sum of their load sizes. */
  lemma {:induction false} LoadSizeAppend(a: seq<ProgramHeader>, b: seq<ProgramHeader>)
    ensures LoadSize(a + b) == LoadSize(a) + LoadSize(b)
  {
    if b != [] {
      var last := |b| - 1;
      assert (a + b)[..|a + b| - 1] == a + b[..last];
      assert (a + b)[|a + b| - 1] == b[last];
      LoadSizeAppend(a, b[..last]);
      assert LoadSize(a + b) == LoadSize(a + b[..last]) + Contribution(b[last]);
    } else {
      assert a + b == a;
    }
  }

  /** A header that is not `PT_LOAD` changes nothing, wherever it stands. */
  lemma NonLoadContributesNothing(a: seq<ProgramHeader>, p: ProgramHeader, b: seq<ProgramHeader>)
    requires p.ptype != PT_LOAD
    ensures LoadSize(a + [p] + b) == LoadSize(a + b)
  {
    LoadSizeAppend(a + [p], b);
    LoadSizeAppend(a, [p]);
    LoadSizeAppend(a, b);
    assert [p][..0] == [];
  }

  /** Without `PT_LOAD` headers nothing has to be loaded. */
  lemma {:induction false} NoLoadNoSpace(ps: seq<ProgramHeader>)
    requires forall i :: 0 <= i < |ps| ==> ps[i].ptype != PT_LOAD
    ensures LoadSize(ps) == 0
  {
    if ps != [] {
      NoLoadNoSpace(ps[..|ps| - 1]);
    }
  }

  /** With `e_phnum == 0` or a failed read, `space` is 0. */
  lemma EmptyTableNoSpace(file: Option<Bytes>)
    requires file.Some? ==> SpaceReadable(file.value)
    ensures file.None? ==> SpaceOf(file) == 0
    ensures file.Some? && PhNum(file.value) == 0 ==> SpaceOf(file) == 0
  {
  }

  /** The sum wraps like the `uint64_t` it is: loads of 2^64 - 1 and 2 bytes add up to 1. */
  lemma SpaceWraps(p: ProgramHeader, q: ProgramHeader)
    requires p.ptype == PT_LOAD && p.memsz == TWO_TO_64 - 1
    requires q.ptype == PT_LOAD && q.memsz == 2
    ensures LoadSize([p, q]) % TWO_TO_64 == 1
  {
    assert [p, q][..1] == [p];
    assert [p][..0] == [];
    assert LoadSize([p]) == TWO_TO_64 - 1;
  }

  /** Entry `i` of the table at `phoff`, entries `stride` bytes apart, is `ps[i]`, for every `i < |ps|`. */
  predicate TableHolds(buf: Bytes, phoff: nat, stride: nat, ps: seq<ProgramHeader>)
  {
    (forall i | 0 <= i < |ps| :: EntryStart(phoff, stride, i) + ELF_PHDR_SIZE <= |buf|) &&
    forall i {:trigger DecodePhdr(buf, EntryStart(phoff, stride, i))} | 0 <= i < |ps| ::
      DecodePhdr(buf, EntryStart(phoff, stride, i)) == ps[i]
  }

  /** In such a table, what entry `i` loads is what `ps[i]` contributes. */
  lemma EntryLoadOfTable(buf: Bytes, phoff: nat, stride: nat, ps: seq<ProgramHeader>, i: nat)
    requires TableHolds(buf, phoff, stride, ps) && i < |ps|
    ensures EntryStart(phoff, stride, i) + ELF_PHDR_SIZE <= |buf|
    ensures EntryLoad(buf, EntryStart(phoff, stride, i)) == Contribution(ps[i])
  {
    var at := EntryStart(phoff, stride, i);
    assert at + ELF_PHDR_SIZE <= |buf| && DecodePhdr(buf, at) == ps[i];
    ContributionOfEntry(buf, at);
  }

  /** Its first `n` entries load what the first `n` of `ps` do. */
  lemma {:induction false} TableLoadOfTable(buf: Bytes, phoff: nat, stride: nat, ps: seq<ProgramHeader>, n: nat)
    requires TableHolds(buf, phoff, stride, ps) && n <= |ps|
    ensures TableInBounds(buf, phoff, stride, n)
    ensures TableLoad(buf, phoff, stride, n) == LoadSize(ps[..n])
  {
    if n > 0 {
      EntryLoadOfTable(buf, phoff, stride, ps, n - 1);
      TableLoadStep(buf, phoff, stride, n - 1);
      TableLoadOfTable(buf, phoff, stride, ps, n - 1);
      assert ps[..n][..n - 1] == ps[..n - 1];
    }
  }

  /**
   * `space` of a file whose `e_phnum` table entries are the program headers
   * `ps` is the load size of `ps` modulo 2^64, whatever else the file holds.
   */
  lemma SpaceOfTable(buf: Bytes, ps: seq<ProgramHeader>)
    requires SpaceReadable(buf) && PhNum(buf) == |ps|
    requires TableHolds(buf, PhOff(buf), PhEntSize(buf), ps)
    ensures SpaceOf(Some(buf)) == LoadSize(ps) % TWO_TO_64
  {
    TableLoadOfTable(buf, PhOff(buf), PhEntSize(buf), ps, |ps|);
    assert ps[..|ps|] == ps;
  }
}
