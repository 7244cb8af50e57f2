/**
 * x86-64 four-level page-table walk (IA-32e paging with 4-KByte pages, as
 * described in section 4.5 of the Intel 64 and IA-32 Architectures Software
 * Developer's Manual, Volume 3A), modelled after main.cpp.
 *
 * A logical address is split into four 9-bit table indices and a 12-bit
 * offset.  Each level looks up an entry in a map from physical address to
 * entry value; a missing key reads as 0.  The walk reports "fault" at the
 * first entry whose presence check fails, and otherwise the physical
 * address.  All arithmetic is on 64-bit unsigned words (`bv64`), as
 * `uint64_t` is in the source.
 */
module Paging {
  import opened MachineWords

  /** Bit `k` of `x`, bit 0 being the least significant. */
  predicate BitSet(x: bv64, k: nat)
    requires k < 64
  {
    (x >> k) & 1 == 1
  }

  /** The word whose bits `first .. end - 1` are set (none when `end <= first`). */
  function BitRange(first: nat, end: nat): bv64
    requires end <= 64
    decreases end
  {
    if end <= first then 0 else BitRange(first, end - 1) | ((1 as bv64) << (end - 1))
  }

  /**
   * Reference definition of `mask(first, last)`: the bits `first .. last`
   * (none when `first > last`).  Shifting by 64 or more is undefined in the
   * source, hence `last < 64`.
   */
  function MaskOf(first: nat, last: nat): bv64
    requires last < 64
  {
    BitRange(first, last + 1)
  }

  // The bit-level facts below are proved with bit-vector shift amounts, for
  // which the solver decides them quickly.
  lemma OrOneBitBv(x: bv64, j: bv64, k: bv64)
    requires j < 64 && k < 64
    ensures (x | ((1 as bv64) << j)) & ((1 as bv64) << k) != 0 <==> x & ((1 as bv64) << k) != 0 || k == j
  {
  }

  lemma OrOneBit(x: bv64, j: nat, k: nat)
    requires j < 64 && k < 64
    ensures BitSet(x | ((1 as bv64) << j), k) <==> BitSet(x, k) || k == j
  {
    OrOneBitBv(x, j as bv64, k as bv64);
  }

  lemma NoBitOfZero(k: nat)
    requires k < 64
    ensures !BitSet(0, k)
  {
  }

  lemma {:induction false} BitRangeBits(first: nat, end: nat, k: nat)
    requires end <= 64 && k < 64
    ensures BitSet(BitRange(first, end), k) <==> first <= k < end
    decreases end
  {
    if end <= first {
      NoBitOfZero(k);
    } else {
      BitRangeBits(first, end - 1, k);
      OrOneBit(BitRange(first, end - 1), end - 1, k);
    }
  }

  /** `mask(first, last)` has exactly the bits `first .. last` set. */
  lemma MaskOfBits(first: nat, last: nat, k: nat)
    requires last < 64 && k < 64
    ensures BitSet(MaskOf(first, last), k) <==> first <= k <= last
  {
    BitRangeBits(first, last + 1, k);
  }

  /** `mask` as the source computes it: one `|=` per bit of the range. */
  method Mask(first: nat, last: nat) returns (res: bv64)
    requires last < 64
    ensures res == MaskOf(first, last)
  {
    res := 0;
    var i := first;
    while i <= last
      invariant first <= i
      invariant first <= last ==> i <= last + 1
      invariant last < first ==> i == first
      invariant res == if i <= 64 then BitRange(first, i) else 0
    {
      res := res | ((1 as bv64) << i);
      i := i + 1;
    }
  }

  /** A shift amount the source can use without undefined behaviour. */
  type Shift = s: bv64 | s < 64

  /** A field of a logical address or of a table entry: `(x & mask) >> shift`. */
  datatype AddressPart = AddressPart(mask: bv64, shift: Shift)

  // The masks are written out; MaskConstants shows that each one is the
  // `mask` of the bit range the source names.
  const PLM4_MASK: AddressPart := AddressPart(0x0000_FF80_0000_0000, 39)
  const DIRECTORY_PTR_MASK: AddressPart := AddressPart(0x0000_007F_C000_0000, 30)
  const DIRECTORY_MASK: AddressPart := AddressPart(0x0000_0000_3FE0_0000, 21)
  const TABLE_MASK: AddressPart := AddressPart(0x0000_0000_001F_F000, 12)
  const OFFSET_MASK: AddressPart := AddressPart(0x0000_0000_0000_0FFF, 0)
  const PHYSICAL_ADDRESS_MASK: AddressPart := AddressPart(0x000F_FFFF_FFFF_F000, 0)
  /** The "P bit" check of the source: it covers bits 0 AND 1 (`mask(0, 1)`). */
  const LAST_BIT_MASK: AddressPart := AddressPart(0x0000_0000_0000_0003, 0)

  lemma MaskConstants()
    ensures PLM4_MASK.mask == MaskOf(39, 47)
    ensures DIRECTORY_PTR_MASK.mask == MaskOf(30, 38)
    ensures DIRECTORY_MASK.mask == MaskOf(21, 29)
    ensures TABLE_MASK.mask == MaskOf(12, 20)
    ensures OFFSET_MASK.mask == MaskOf(0, 11)
    ensures PHYSICAL_ADDRESS_MASK.mask == MaskOf(12, 51)
    ensures LAST_BIT_MASK.mask == MaskOf(0, 1)
  {
    assert BitRange(0, 1) == 1;
    assert BitRange(0, 2) == 3;
    assert BitRange(0, 6) == 0x0000_0000_0000_003F;
    assert BitRange(0, 12) == 0x0000_0000_0000_0FFF;
    assert BitRange(21, 25) == 0x0000_0000_01E0_0000;
    assert BitRange(21, 30) == 0x0000_0000_3FE0_0000;
    assert BitRange(12, 16) == 0x0000_0000_0000_F000;
    assert BitRange(12, 21) == 0x0000_0000_001F_F000;
    assert BitRange(12, 28) == 0x0000_0000_0FFF_F000;
    assert BitRange(12, 36) == 0x0000_000F_FFFF_F000;
    assert BitRange(12, 44) == 0x0000_0FFF_FFFF_F000;
  }

  /** The number of table levels. */
  const LEVELS := 4

  /** The part of the logical address that indexes the table at `level`, from the root down. */
  function LevelPart(level: nat): AddressPart
    requires level < LEVELS
  {
    if level == 0 then PLM4_MASK
    else if level == 1 then DIRECTORY_PTR_MASK
    else if level == 2 then DIRECTORY_MASK
    else TABLE_MASK
  }

  function PartOfLogicalAddress(addr: bv64, part: AddressPart): bv64
  {
    (addr & part.mask) >> part.shift
  }

  // Each field in the form the solver reasons about directly: the mask and
  // shift amount written out.
  lemma Plm4Literal(addr: bv64)
    ensures PartOfLogicalAddress(addr, PLM4_MASK) == (addr & 0x0000_FF80_0000_0000) >> 39
  {
  }

  lemma DirectoryPtrLiteral(addr: bv64)
    ensures PartOfLogicalAddress(addr, DIRECTORY_PTR_MASK) == (addr & 0x0000_007F_C000_0000) >> 30
  {
  }

  lemma DirectoryLiteral(addr: bv64)
    ensures PartOfLogicalAddress(addr, DIRECTORY_MASK) == (addr & 0x0000_0000_3FE0_0000) >> 21
  {
  }

  lemma TableLiteral(addr: bv64)
    ensures PartOfLogicalAddress(addr, TABLE_MASK) == (addr & 0x0000_0000_001F_F000) >> 12
  {
  }

  lemma OffsetLiteral(addr: bv64)
    ensures PartOfLogicalAddress(addr, OFFSET_MASK) == addr & 0xFFF
  {
  }

  lemma PhysicalAddressLiteral(addr: bv64)
    ensures PartOfLogicalAddress(addr, PHYSICAL_ADDRESS_MASK) == addr & 0x000F_FFFF_FFFF_F000
  {
  }

  lemma LastBitLiteral(addr: bv64)
    ensures PartOfLogicalAddress(addr, LAST_BIT_MASK) == addr & 3
  {
  }

  lemma Reassemble(addr: bv64)
    ensures (((addr & 0x0000_FF80_0000_0000) >> 39) << 39)
          | (((addr & 0x0000_007F_C000_0000) >> 30) << 30)
          | (((addr & 0x0000_0000_3FE0_0000) >> 21) << 21)
          | (((addr & 0x0000_0000_001F_F000) >> 12) << 12)
          | (addr & 0xFFF)
         == addr & 0x0000_FFFF_FFFF_FFFF
  {
  }

  /**
   * The four 9-bit indices and the 12-bit offset are in range, and together
   * they give back bits 0 .. 47 of the logical address.
   */
  lemma AddressParts(addr: bv64)
    ensures PartOfLogicalAddress(addr, PLM4_MASK) < 512
    ensures PartOfLogicalAddress(addr, DIRECTORY_PTR_MASK) < 512
    ensures PartOfLogicalAddress(addr, DIRECTORY_MASK) < 512
    ensures PartOfLogicalAddress(addr, TABLE_MASK) < 512
    ensures PartOfLogicalAddress(addr, OFFSET_MASK) < 4096
    ensures (PartOfLogicalAddress(addr, PLM4_MASK) << 39)
          | (PartOfLogicalAddress(addr, DIRECTORY_PTR_MASK) << 30)
          | (PartOfLogicalAddress(addr, DIRECTORY_MASK) << 21)
          | (PartOfLogicalAddress(addr, TABLE_MASK) << 12)
          | PartOfLogicalAddress(addr, OFFSET_MASK)
         == addr & 0x0000_FFFF_FFFF_FFFF
  {
    Plm4Literal(addr);
    DirectoryPtrLiteral(addr);
    DirectoryLiteral(addr);
    TableLiteral(addr);
    OffsetLiteral(addr);
    Reassemble(addr);
  }

  /**
   * The presence check of the source: bits 0 and 1 of an entry (its
   * `LAST_BIT` part), not just the P bit 0.
   */
  predicate Present(entry: bv64)
  {
    entry & 3 != 0
  }

  /**
   * The check differs from the P bit (bit 0) of the architecture: an entry
   * with only bit 1 set counts as present, and one with only bit 0 set does
   * too.
   */
  lemma PresenceCheckCoversBitOne()
    ensures Present(2) && !BitSet(2, 0)
    ensures Present(1) && BitSet(1, 0)
    ensures !Present(0xFFFF_FFFF_FFFF_FFFC)
  {
  }

  /** The page table: physical address of an entry (as a number) to its value. */
  type Table = map<UInt64, bv64>

  function ValueOrDefault(m: Table, key: bv64): bv64
  {
    if key as int in m then m[key as int] else 0
  }

  /** Physical address of the entry selected by `part` of `logical` in the table at `tableBase`. */
  function TableKey(tableBase: bv64, logical: bv64, part: AddressPart): bv64
  {
    PartOfLogicalAddress(tableBase, PHYSICAL_ADDRESS_MASK) + PartOfLogicalAddress(logical, part) * 8
  }

  /**
   * One step of the walk (`foo`): the entry the table at `tableBase` holds
   * for `part` of `logical`, or 0 when its presence check fails (the source
   * writes "fault" to its output in that case).  The check looks at bits 0
   * and 1 of the entry, so a returned entry is never 0.
   */
  function Foo(tableBase: bv64, logical: bv64, part: AddressPart, m: Table): (next: bv64)
    ensures next == 0 <==> !Present(ValueOrDefault(m, TableKey(tableBase, logical, part)))
    ensures next != 0 ==> next == ValueOrDefault(m, TableKey(tableBase, logical, part))
  {
    var nextTableBaseAddress := ValueOrDefault(m, TableKey(tableBase, logical, part));
    if PartOfLogicalAddress(nextTableBaseAddress, LAST_BIT_MASK) == 0 then 0
    else nextTableBaseAddress
  }

  /** An entry missing from the table reads as 0 and therefore faults. */
  lemma AbsentEntryFaults(tableBase: bv64, logical: bv64, part: AddressPart, m: Table)
    requires TableKey(tableBase, logical, part) as int !in m
    ensures Foo(tableBase, logical, part, m) == 0
  {
  }

  /** What `map_addr` writes for one query: the line "fault", or a physical address. */
  datatype Outcome = Fault | Phys(addr: bv64)

  /** The last element of a non-empty sequence. */
  function Last(s: seq<bv64>): bv64
    requires |s| >= 1
  {
    s[|s| - 1]
  }

  lemma LastOfFour(a: bv64, b: bv64, c: bv64, d: bv64)
    ensures Last([a, b, c, d]) == d
  {
  }

  /**
   * Reference definition of the lookups a walk from table level `level` on
   * makes: the address of the entry each level selects, up to and including
   * the first entry that is not present.
   */
  function WalkKeys(logical: bv64, tableBase: bv64, m: Table, level: nat): seq<bv64>
    requires level <= LEVELS
    decreases LEVELS - level
  {
    if level == LEVELS then []
    else
      var key := TableKey(tableBase, logical, LevelPart(level));
      var entry := ValueOrDefault(m, key);
      if !Present(entry) then [key] else [key] + WalkKeys(logical, entry, m, level + 1)
  }

  /** One step of `map_addr` is one lookup of the reference walk. */
  lemma WalkStep(logical: bv64, tableBase: bv64, m: Table, level: nat, part: AddressPart)
    requires level < LEVELS && part == LevelPart(level)
    ensures var key := TableKey(tableBase, logical, part);
      WalkKeys(logical, tableBase, m, level) ==
        if Foo(tableBase, logical, part, m) == 0 then [key]
        else [key] + WalkKeys(logical, Foo(tableBase, logical, part, m), m, level + 1)
  {
  }

  /** A walk from a table level makes at least one lookup. */
  lemma WalkKeysNonEmpty(logical: bv64, tableBase: bv64, m: Table, level: nat)
    requires level < LEVELS
    ensures |WalkKeys(logical, tableBase, m, level)| >= 1
  {
    WalkStep(logical, tableBase, m, level, LevelPart(level));
  }

  /**
   * Reference definition of the whole walk: fault when the last entry read
   * is not present; otherwise combine that entry's frame address (bits
   * 12 .. 51) with the page offset (bits 0 .. 11 of the logical address).
   * A successful walk keeps the page offset and lands below 2^52.
   */
  function Walk(logical: bv64, root: bv64, m: Table): (out: Outcome)
    ensures out.Phys? ==> out.addr % 4096 == logical % 4096 && out.addr < 0x0010_0000_0000_0000
  {
    WalkKeysNonEmpty(logical, root, m, 0);
    var entry := ValueOrDefault(m, Last(WalkKeys(logical, root, m, 0)));
    if !Present(entry) then Fault
    else Phys((entry & 0x000F_FFFF_FFFF_F000) + (logical & 0xFFF))
  }

  lemma WalkEndsWith(logical: bv64, root: bv64, m: Table, entry: bv64)
    requires ValueOrDefault(m, Last(WalkKeys(logical, root, m, 0))) == entry
    requires Present(entry)
    ensures Walk(logical, root, m) == Phys((entry & 0x000F_FFFF_FFFF_F000) + (logical & 0xFFF))
  {
  }

  // The lookups of a walk from each level down, given the entries `foo`
  // returned on the way.

  lemma KeysFromTable(logical: bv64, e3: bv64, m: Table)
    ensures WalkKeys(logical, e3, m, 3) == [TableKey(e3, logical, TABLE_MASK)]
  {
    WalkStep(logical, e3, m, 3, TABLE_MASK);
  }

  lemma KeysFromDirectory(logical: bv64, e2: bv64, e3: bv64, m: Table)
    requires e3 == Foo(e2, logical, DIRECTORY_MASK, m) != 0
    ensures WalkKeys(logical, e2, m, 2) ==
              [TableKey(e2, logical, DIRECTORY_MASK), TableKey(e3, logical, TABLE_MASK)]
  {
    WalkStep(logical, e2, m, 2, DIRECTORY_MASK);
    KeysFromTable(logical, e3, m);
  }

  lemma KeysFromDirectoryPtr(logical: bv64, e1: bv64, e2: bv64, e3: bv64, m: Table)
    requires e2 == Foo(e1, logical, DIRECTORY_PTR_MASK, m) != 0
    requires e3 == Foo(e2, logical, DIRECTORY_MASK, m) != 0
    ensures WalkKeys(logical, e1, m, 1) ==
              [TableKey(e1, logical, DIRECTORY_PTR_MASK), TableKey(e2, logical, DIRECTORY_MASK),
               TableKey(e3, logical, TABLE_MASK)]
  {
    WalkStep(logical, e1, m, 1, DIRECTORY_PTR_MASK);
    KeysFromDirectory(logical, e2, e3, m);
  }

  lemma KeysThroughTable(logical: bv64, root: bv64, m: Table, e1: bv64, e2: bv64, e3: bv64)
    requires e1 == Foo(root, logical, PLM4_MASK, m) != 0
    requires e2 == Foo(e1, logical, DIRECTORY_PTR_MASK, m) != 0
    requires e3 == Foo(e2, logical, DIRECTORY_MASK, m) != 0
    ensures WalkKeys(logical, root, m, 0) ==
              [TableKey(root, logical, PLM4_MASK), TableKey(e1, logical, DIRECTORY_PTR_MASK),
               TableKey(e2, logical, DIRECTORY_MASK), TableKey(e3, logical, TABLE_MASK)]
  {
    WalkStep(logical, root, m, 0, PLM4_MASK);
    KeysFromDirectoryPtr(logical, e1, e2, e3, m);
  }

  lemma WalkFaultsWith(logical: bv64, root: bv64, m: Table, key: bv64)
    requires |WalkKeys(logical, root, m, 0)| >= 1 && Last(WalkKeys(logical, root, m, 0)) == key
    requires !Present(ValueOrDefault(m, key))
    ensures Walk(logical, root, m) == Fault
  {
  }

  // The five ways `map_addr` can end: a fault at one of the four levels,
  // or a translation through all four.

  lemma FaultAtPlm4(logical: bv64, root: bv64, m: Table)
    requires Foo(root, logical, PLM4_MASK, m) == 0
    ensures WalkKeys(logical, root, m, 0) == [TableKey(root, logical, PLM4_MASK)]
    ensures Walk(logical, root, m) == Fault
  {
    WalkStep(logical, root, m, 0, PLM4_MASK);
    WalkFaultsWith(logical, root, m, TableKey(root, logical, PLM4_MASK));
  }

  lemma FaultAtDirectoryPtr(logical: bv64, root: bv64, m: Table, e1: bv64)
    requires e1 == Foo(root, logical, PLM4_MASK, m) != 0
    requires Foo(e1, logical, DIRECTORY_PTR_MASK, m) == 0
    ensures WalkKeys(logical, root, m, 0) ==
              [TableKey(root, logical, PLM4_MASK), TableKey(e1, logical, DIRECTORY_PTR_MASK)]
    ensures Walk(logical, root, m) == Fault
  {
    var k1 := TableKey(e1, logical, DIRECTORY_PTR_MASK);
    WalkStep(logical, e1, m, 1, DIRECTORY_PTR_MASK);
    WalkStep(logical, root, m, 0, PLM4_MASK);
    assert Last([TableKey(root, logical, PLM4_MASK), k1]) == k1;
    WalkFaultsWith(logical, root, m, k1);
  }

  lemma FaultAtDirectory(logical: bv64, root: bv64, m: Table, e1: bv64, e2: bv64)
    requires e1 == Foo(root, logical, PLM4_MASK, m) != 0
    requires e2 == Foo(e1, logical, DIRECTORY_PTR_MASK, m) != 0
    requires Foo(e2, logical, DIRECTORY_MASK, m) == 0
    ensures WalkKeys(logical, root, m, 0) ==
              [TableKey(root, logical, PLM4_MASK), TableKey(e1, logical, DIRECTORY_PTR_MASK),
               TableKey(e2, logical, DIRECTORY_MASK)]
    ensures Walk(logical, root, m) == Fault
  {
    var k2 := TableKey(e2, logical, DIRECTORY_MASK);
    WalkStep(logical, e2, m, 2, DIRECTORY_MASK);
    WalkStep(logical, e1, m, 1, DIRECTORY_PTR_MASK);
    WalkStep(logical, root, m, 0, PLM4_MASK);
    assert Last([TableKey(root, logical, PLM4_MASK), TableKey(e1, logical, DIRECTORY_PTR_MASK), k2]) == k2;
    WalkFaultsWith(logical, root, m, k2);
  }

  lemma FaultAtTable(logical: bv64, root: bv64, m: Table, e1: bv64, e2: bv64, e3: bv64)
    requires e1 == Foo(root, logical, PLM4_MASK, m) != 0
    requires e2 == Foo(e1, logical, DIRECTORY_PTR_MASK, m) != 0
    requires e3 == Foo(e2, logical, DIRECTORY_MASK, m) != 0
    requires Foo(e3, logical, TABLE_MASK, m) == 0
    ensures WalkKeys(logical, root, m, 0) ==
              [TableKey(root, logical, PLM4_MASK), TableKey(e1, logical, DIRECTORY_PTR_MASK),
               TableKey(e2, logical, DIRECTORY_MASK), TableKey(e3, logical, TABLE_MASK)]
    ensures Walk(logical, root, m) == Fault
  {
    KeysThroughTable(logical, root, m, e1, e2, e3);
    var k3 := TableKey(e3, logical, TABLE_MASK);
    LastOfFour(TableKey(root, logical, PLM4_MASK), TableKey(e1, logical, DIRECTORY_PTR_MASK),
               TableKey(e2, logical, DIRECTORY_MASK), k3);
    WalkFaultsWith(logical, root, m, k3);
  }

  lemma Translates(logical: bv64, root: bv64, m: Table, e1: bv64, e2: bv64, e3: bv64, e4: bv64)
    requires e1 == Foo(root, logical, PLM4_MASK, m) != 0
    requires e2 == Foo(e1, logical, DIRECTORY_PTR_MASK, m) != 0
    requires e3 == Foo(e2, logical, DIRECTORY_MASK, m) != 0
    requires e4 == Foo(e3, logical, TABLE_MASK, m) != 0
    ensures WalkKeys(logical, root, m, 0) ==
              [TableKey(root, logical, PLM4_MASK), TableKey(e1, logical, DIRECTORY_PTR_MASK),
               TableKey(e2, logical, DIRECTORY_MASK), TableKey(e3, logical, TABLE_MASK)]
    ensures Walk(logical, root, m) == Phys((e4 & 0x000F_FFFF_FFFF_F000) + (logical & 0xFFF))
  {
    KeysThroughTable(logical, root, m, e1, e2, e3);
    var k3 := TableKey(e3, logical, TABLE_MASK);
    LastOfFour(TableKey(root, logical, PLM4_MASK), TableKey(e1, logical, DIRECTORY_PTR_MASK),
               TableKey(e2, logical, DIRECTORY_MASK), k3);
    WalkEndsWith(logical, root, m, e4);
  }

  /**
   * A walk makes one to four lookups, and one that yields an address has
   * read an entry at each of the four levels.
   */
  lemma WalkLookupCount(logical: bv64, root: bv64, m: Table)
    ensures 1 <= |WalkKeys(logical, root, m, 0)| <= LEVELS
    ensures Walk(logical, root, m).Phys? ==> |WalkKeys(logical, root, m, 0)| == LEVELS
  {
    var e1 := Foo(root, logical, PLM4_MASK, m);
    if e1 == 0 {
      FaultAtPlm4(logical, root, m);
      return;
    }
    var e2 := Foo(e1, logical, DIRECTORY_PTR_MASK, m);
    if e2 == 0 {
      FaultAtDirectoryPtr(logical, root, m, e1);
      return;
    }
    var e3 := Foo(e2, logical, DIRECTORY_MASK, m);
    if e3 == 0 {
      FaultAtDirectory(logical, root, m, e1, e2);
      return;
    }
    var e4 := Foo(e3, logical, TABLE_MASK, m);
    if e4 == 0 {
      FaultAtTable(logical, root, m, e1, e2, e3);
    } else {
      Translates(logical, root, m, e1, e2, e3, e4);
    }
  }

  /**
   * The walk stops at the first entry that is not present: every entry it
   * reads before the last one is present.
   */
  lemma WalkStopsAtFirstFault(logical: bv64, root: bv64, m: Table)
    ensures var keys := WalkKeys(logical, root, m, 0);
      forall j | 0 <= j < |keys| - 1 :: Present(ValueOrDefault(m, keys[j]))
  {
    var e1 := Foo(root, logical, PLM4_MASK, m);
    if e1 == 0 {
      FaultAtPlm4(logical, root, m);
      return;
    }
    var e2 := Foo(e1, logical, DIRECTORY_PTR_MASK, m);
    if e2 == 0 {
      FaultAtDirectoryPtr(logical, root, m, e1);
      return;
    }
    var e3 := Foo(e2, logical, DIRECTORY_MASK, m);
    if e3 == 0 {
      FaultAtDirectory(logical, root, m, e1, e2);
      return;
    }
    var e4 := Foo(e3, logical, TABLE_MASK, m);
    if e4 == 0 {
      FaultAtTable(logical, root, m, e1, e2, e3);
    } else {
      Translates(logical, root, m, e1, e2, e3, e4);
    }
  }

  /** The address `map_addr` forms from the last entry is the one the walk ends with. */
  lemma LastStep(logical: bv64, entry: bv64)
    ensures PartOfLogicalAddress(entry, PHYSICAL_ADDRESS_MASK) + PartOfLogicalAddress(logical, OFFSET_MASK) ==
            (entry & 0x000F_FFFF_FFFF_F000) + (logical & 0xFFF)
  {
    PhysicalAddressLiteral(entry);
    OffsetLiteral(logical);
  }

  /**
   * `map_addr`: the four unrolled steps with early returns.  It gives the
   * outcome of the reference walk, and `visited`, the entry addresses it
   * reads, are the lookups of the reference walk: so it stops at the first
   * entry that is not present (WalkStopsAtFirstFault, WalkLookupCount) and
   * emits exactly one outcome.
   */
  method MapAddr(logical: bv64, root: bv64, m: Table) returns (out: Outcome, ghost visited: seq<bv64>)
    ensures out == Walk(logical, root, m)
    ensures visited == WalkKeys(logical, root, m, 0)
  {
    var tableBaseAddress := root;
    visited := [TableKey(tableBaseAddress, logical, PLM4_MASK)];
    tableBaseAddress := Foo(tableBaseAddress, logical, PLM4_MASK, m);
    if tableBaseAddress == 0 {
      FaultAtPlm4(logical, root, m);
      return Fault, visited;
    }
    ghost var e1 := tableBaseAddress;
    visited := visited + [TableKey(tableBaseAddress, logical, DIRECTORY_PTR_MASK)];
    assert visited == [TableKey(root, logical, PLM4_MASK), TableKey(e1, logical, DIRECTORY_PTR_MASK)];
    tableBaseAddress := Foo(tableBaseAddress, logical, DIRECTORY_PTR_MASK, m);
    if tableBaseAddress == 0 {
      FaultAtDirectoryPtr(logical, root, m, e1);
      return Fault, visited;
    }
    ghost var e2 := tableBaseAddress;
    visited := visited + [TableKey(tableBaseAddress, logical, DIRECTORY_MASK)];
    assert visited == [TableKey(root, logical, PLM4_MASK), TableKey(e1, logical, DIRECTORY_PTR_MASK),
                       TableKey(e2, logical, DIRECTORY_MASK)];
    tableBaseAddress := Foo(tableBaseAddress, logical, DIRECTORY_MASK, m);
    if tableBaseAddress == 0 {
      FaultAtDirectory(logical, root, m, e1, e2);
      return Fault, visited;
    }
    ghost var e3 := tableBaseAddress;
    visited := visited + [TableKey(tableBaseAddress, logical, TABLE_MASK)];
    assert visited == [TableKey(root, logical, PLM4_MASK), TableKey(e1, logical, DIRECTORY_PTR_MASK),
                       TableKey(e2, logical, DIRECTORY_MASK), TableKey(e3, logical, TABLE_MASK)];
    tableBaseAddress := Foo(tableBaseAddress, logical, TABLE_MASK, m);
    if tableBaseAddress == 0 {
      FaultAtTable(logical, root, m, e1, e2, e3);
      return Fault, visited;
    }
    Translates(logical, root, m, e1, e2, e3, tableBaseAddress);
    LastStep(logical, tableBaseAddress);
    tableBaseAddress :=
      PartOfLogicalAddress(tableBaseAddress, PHYSICAL_ADDRESS_MASK) +
      PartOfLogicalAddress(logical, OFFSET_MASK);
    out := Phys(tableBaseAddress);
  }

  /** The table after storing `entries` in order, a later store to a key replacing an earlier one. */
  function TableOf(entries: seq<(UInt64, bv64)>): Table
  {
    if entries == [] then map[]
    else
      var last := entries[|entries| - 1];
      TableOf(entries[..|entries| - 1])[last.0 := last.1]
  }

  /** A key is in the table exactly when some entry stores it. */
  lemma {:induction false} TableOfKeys(entries: seq<(UInt64, bv64)>, key: UInt64)
    ensures key in TableOf(entries) <==> exists j :: 0 <= j < |entries| && entries[j].0 == key
  {
    if entries != [] {
      var n := |entries| - 1;
      var front := entries[..n];
      assert TableOf(entries) == TableOf(front)[entries[n].0 := entries[n].1];
      TableOfKeys(front, key);
      if key in TableOf(front) {
        var j :| 0 <= j < n && front[j].0 == key;
        assert entries[j].0 == key;
      }
      if j :| 0 <= j < n && entries[j].0 == key {
        assert front[j].0 == key;
      }
    }
  }

  /** A key stored last by entry `j` maps to that entry's value. */
  lemma {:induction false} TableOfLastStore(entries: seq<(UInt64, bv64)>, j: nat)
    requires j < |entries|
    requires forall k | j < k < |entries| :: entries[k].0 != entries[j].0
    ensures entries[j].0 in TableOf(entries) && TableOf(entries)[entries[j].0] == entries[j].1
  {
    var n := |entries| - 1;
    var front := entries[..n];
    var (key, value) := entries[n];
    var m := TableOf(front);
    assert TableOf(entries) == m[key := value];
    if j < n {
      assert key != entries[j].0;
      forall k | j < k < n
        ensures front[k].0 != front[j].0
      {
        assert front[k] == entries[k] && front[j] == entries[j];
      }
      TableOfLastStore(front, j);
      assert front[j] == entries[j];
    }
  }

  /** The loop of `main` that reads the table: `m[ph_addr] = value` for each pair in turn. */
  method BuildTable(entries: seq<(UInt64, bv64)>) returns (m: Table)
    ensures m == TableOf(entries)
  {
    m := map[];
    var i := 0;
    while i < |entries|
      invariant 0 <= i <= |entries|
      invariant m == TableOf(entries[..i])
    {
      assert entries[..i + 1][..i] == entries[..i];
      m := m[entries[i].0 := entries[i].1];
      i := i + 1;
    }
    assert entries[..i] == entries;
  }

  /** The outcomes of `queries`, in order: the lines `main` writes. */
  function Answers(queries: seq<bv64>, root: bv64, m: Table): (outs: seq<Outcome>)
    ensures |outs| == |queries|
  {
    if queries == [] then []
    else Answers(queries[..|queries| - 1], root, m) + [Walk(queries[|queries| - 1], root, m)]
  }

  /** The loop of `main` that answers the queries: one outcome per query, in order. */
  method MapQueries(queries: seq<bv64>, root: bv64, m: Table) returns (outs: seq<Outcome>)
    ensures outs == Answers(queries, root, m)
  {
    outs := [];
    var i := 0;
    while i < |queries|
      invariant 0 <= i <= |queries|
      invariant outs == Answers(queries[..i], root, m)
    {
      var out, _ := MapAddr(queries[i], root, m);
      assert queries[..i + 1][..i] == queries[..i];
      outs := outs + [out];
      i := i + 1;
    }
    assert queries[..i] == queries;
  }
}
