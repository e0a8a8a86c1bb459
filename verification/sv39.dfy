/**
 * The Sv39 page-table dump of the RISC-V trap code (c_traps.c): entry
 * decoding, the physical address an entry points to, sign extension of
 * the printed virtual address, and the shape of the three-level walk.
 * Entry and page-table layout follow section 4.4 of the RISC-V
 * Privileged Architecture specification.
 */
module Sv39 {
  import opened Arith
  import H = HexFormat

  /** Entries per page table (PTES_PER_PT). */
  const PtesPerPt: nat := 512

  /** Size of the Sv39 virtual address space. */
  const VaSpace: nat := 0x80_0000_0000

  /** printPageTableIsValid: the entry's V field is set. */
  function IsValid(e: bv64): (valid: bool)
    ensures valid <==> Decode(e).v == 1
  {
    e & 0x01 != 0
  }

  /** printPageTableIsLeaf: the entry's XWR field is non-zero, so it maps a page. */
  function IsLeaf(e: bv64): (leaf: bool)
    ensures leaf <==> Decode(e).xwr != 0
  {
    e & 0x0e != 0
  }

  /** An entry the walk descends through: valid and not a leaf. */
  predicate IsPointer(e: bv64)
  {
    IsValid(e) && !IsLeaf(e)
  }

  /** The fields print_page_entry shows, each shifted down to bit 0. */
  datatype PteFields = PteFields(ppn2: bv64, ppn1: bv64, ppn0: bv64, rsw: bv64, d: bv64, a: bv64,
                                 g: bv64, u: bv64, xwr: bv64, v: bv64)

  predicate FieldsFit(f: PteFields)
  {
    f.ppn2 < 0x400_0000 && f.ppn1 < 0x200 && f.ppn0 < 0x200 && f.rsw < 4 && f.d < 2 && f.a < 2
    && f.g < 2 && f.u < 2 && f.xwr < 8 && f.v < 2
  }

  /** The field extraction of print_page_entry. */
  function Decode(x: bv64): (f: PteFields)
    ensures FieldsFit(f)
  {
    PteFields((x >> 28) & 0x3FF_FFFF, (x >> 19) & 0x1FF, (x >> 10) & 0x1FF, (x >> 8) & 0x3,
              (x >> 7) & 0x1, (x >> 6) & 0x1, (x >> 5) & 0x1, (x >> 4) & 0x1, (x >> 1) & 0x7, x & 0x1)
  }

  /** Packing the fields back into an entry with the reserved bits 54..63 clear. */
  function Encode(f: PteFields): bv64
  {
    (f.ppn2 << 28) | (f.ppn1 << 19) | (f.ppn0 << 10) | (f.rsw << 8) | (f.d << 7) | (f.a << 6)
    | (f.g << 5) | (f.u << 4) | (f.xwr << 1) | f.v
  }

  /** The extracted fields cover every bit below 54: re-packing them gives the entry back. */
  lemma EncodeDecode(x: bv64)
    requires x >> 54 == 0
    ensures Encode(Decode(x)) == x
  {}

  /** Fields of the right widths survive packing and unpacking. */
  lemma DecodeEncode(f: PteFields)
    requires FieldsFit(f)
    ensures Decode(Encode(f)) == f
  {}

  /**
   * PPN[2] is a 26-bit field but print_page_entry prints it with width 3, so
   * only its low twelve bits appear: a PPN[2] of 0x1000 or more prints as
   * fewer digits than it has.
   */
  lemma PrintedPpn2Truncated(n: nat)
    requires 0x1000 <= n < 0x400_0000
    ensures |H.HexDigits(n)| > 3
    ensures H.PrintHex(3, n) != H.HexDigits(n)
  {
    H.HexDigitsLength(n, 3);
    assert H.Pow16(3) == 0x1000;
  }

  /** Two PPN[2] values 0x1000 apart print the same three digits. */
  lemma Ppn2PrintAliases(n: nat)
    requires n + 0x1000 < 0x400_0000
    ensures H.PrintHex(3, n) == H.PrintHex(3, n + 0x1000)
  {
    var m := n + 0x1000;
    assert m / 16 == n / 16 + 0x100 && m % 16 == n % 16;
    assert m / 16 / 16 == n / 16 / 16 + 0x10 && (m / 16) % 16 == (n / 16) % 16;
    assert (m / 16 / 16) % 16 == (n / 16 / 16) % 16;
    assert H.LowDigits(m / 16 / 16, 1) == H.LowDigits(n / 16 / 16, 1);
    assert H.LowDigits(m / 16, 2) == H.LowDigits(n / 16, 2);
    assert H.LowDigits(m, 3) == H.LowDigits(n, 3);
  }

  /** The entry with only PPN bit 30 set (physical address 2^42) prints the PPN[2] of the entry 0. */
  lemma LargePpnPrintsAsZero()
    ensures Decode(0x100_0000_0000).ppn2 == 0x1000 && Decode(0).ppn2 == 0
    ensures H.PrintHex(3, 0x1000) == H.PrintHex(3, 0)
  {
    Ppn2PrintAliases(0);
  }

  /** printPageTableMapEntryToPhysicalAddress: PPN[2]:PPN[1]:PPN[0] followed by a 12-bit page offset. */
  function MapEntryToPhysicalAddress(x: bv64): (r: bv64)
    ensures r == ((x >> 10) & 0xFFF_FFFF_FFFF) << 12
  {
    var ppn2 := (x >> (9 + 9 + 2 + 8)) & 0x3FF_FFFF;
    var ppn1 := (x >> (9 + 2 + 8)) & 0x1FF;
    var ppn0 := (x >> (2 + 8)) & 0x1FF;
    ((ppn2 << 18) + (ppn1 << 9) + ppn0) << 12
  }

  /** The address is page aligned, below 2^56, and made of the entry's three PPN fields. */
  lemma PhysicalAddressOfFields(x: bv64)
    ensures MapEntryToPhysicalAddress(x) & 0xFFF == 0
    ensures MapEntryToPhysicalAddress(x) >> 56 == 0
    ensures MapEntryToPhysicalAddress(x)
         == (Decode(x).ppn2 << 30) | (Decode(x).ppn1 << 21) | (Decode(x).ppn0 << 12)
  {}

  const Bit38: bv64 := 0x40_0000_0000
  /** 0x1ffffff << 39: bits 39..63. */
  const HighBits: bv64 := 0xFFFF_FF80_0000_0000

  /** print_page_entry's sign extension of bit 38 into bits 39..63. */
  function SignExtend(v: bv64): (r: bv64)
    ensures v & Bit38 != 0 ==> r & HighBits == HighBits
    ensures v & Bit38 != 0 ==> r & !HighBits == v & !HighBits
    ensures v & Bit38 == 0 ==> r == v
  {
    if v & Bit38 != 0 then v | HighBits else v
  }

  /** A canonical Sv39 address: bits 38..63 are all equal. */
  predicate Canonical(v: bv64)
  {
    v >> 38 == 0 || v >> 38 == 0x3FF_FFFF
  }

  /** Extending a 39-bit address gives a canonical address with the same low 39 bits. */
  lemma SignExtendCanonical(v: bv64)
    requires v >> 39 == 0
    ensures Canonical(SignExtend(v))
    ensures SignExtend(v) & 0x7F_FFFF_FFFF == v
  {
    if v & Bit38 != 0 {
      NegativeHalf(v);
    } else {
      PositiveHalf(v);
    }
  }

  lemma NegativeHalf(v: bv64)
    requires v >> 39 == 0 && v & Bit38 != 0
    ensures (v | HighBits) >> 38 == 0x3FF_FFFF && (v | HighBits) & 0x7F_FFFF_FFFF == v
  {}

  lemma PositiveHalf(v: bv64)
    requires v >> 39 == 0 && v & Bit38 == 0
    ensures v >> 38 == 0 && v & 0x7F_FFFF_FFFF == v
  {}

  /** Extending twice is extending once. */
  lemma SignExtendIdempotent(v: bv64)
    ensures SignExtend(SignExtend(v)) == SignExtend(v)
  {}

  /** The virtual-address distance between neighbouring entries of a table at each level. */
  function Step(level: nat): (s: nat)
    ensures level == 1 ==> s == 1024 * 1024 * 1024
    ensures level == 2 ==> s == 2 * 1024 * 1024
    ensures level != 1 && level != 2 ==> s == 4 * 1024
  {
    if level == 1 then 1024 * 1024 * 1024
    else if level == 2 then 2 * 1024 * 1024
    else 4 * 1024
  }

  /** One entry of a table covers a whole table of the next level; the root spans the Sv39 space. */
  lemma StepsNest(level: nat)
    ensures 1 <= level < 3 ==> Step(level) == PtesPerPt * Step(level + 1)
    ensures PtesPerPt * Step(1) == VaSpace
  {}

  /** One printed line: level, entry index, entry and the virtual address passed to print_page_entry. */
  datatype Visit = Visit(level: nat, index: nat, entry: bv64, vaddr: nat)

  /** The contents of memory: entry i of the table at physical address pt. */
  type Memory = (bv64, nat) -> bv64

  /** Levels left before the walk stops recursing. */
  function Depth(level: nat): nat
  {
    if level < 3 then 3 - level else 0
  }

  /** v_addr + i * v_addr_step in uint64_t arithmetic. */
  function EntryAddress(vaddr: nat, level: nat, i: nat): nat
  {
    (vaddr + i * Step(level)) % Pow64
  }

  /** The first loop of printPageTableLevel: every entry of the table, in order. */
  function Entries(mem: Memory, pt: bv64, vaddr: nat, level: nat): (s: seq<Visit>)
    ensures |s| == PtesPerPt
  {
    seq(PtesPerPt, (i: int) requires 0 <= i => Visit(level, i, mem(pt, i), EntryAddress(vaddr, level, i)))
  }

  /**
   * printPageTableLevel: the table's own entries come first; from level 3 on
   * nothing follows them; every printed line is at a level between the
   * starting level and 3 (the starting level if it is already deeper).
   */
  function Walk(mem: Memory, pt: bv64, vaddr: nat, level: nat): (s: seq<Visit>)
    ensures |s| >= PtesPerPt && s[..PtesPerPt] == Entries(mem, pt, vaddr, level)
    ensures level >= 3 ==> s == Entries(mem, pt, vaddr, level)
    ensures forall k :: 0 <= k < |s| ==> level <= s[k].level <= if level < 3 then 3 else level
    decreases Depth(level), PtesPerPt + 1
  {
    Entries(mem, pt, vaddr, level) + (if level < 3 then Children(mem, pt, vaddr, level, 0) else [])
  }

  /** The second loop of printPageTableLevel, from entry i on: only lines of deeper levels, down to 3. */
  function Children(mem: Memory, pt: bv64, vaddr: nat, level: nat, i: nat): (s: seq<Visit>)
    requires level < 3 && i <= PtesPerPt
    ensures forall k :: 0 <= k < |s| ==> level < s[k].level <= 3
    decreases Depth(level), PtesPerPt - i
  {
    if i == PtesPerPt then []
    else
      var x := mem(pt, i);
      (if IsPointer(x) then Walk(mem, MapEntryToPhysicalAddress(x), EntryAddress(vaddr, level, i), level + 1) else [])
      + Children(mem, pt, vaddr, level, i + 1)
  }

  /** printPageTablePage: the walk from the root table at level 1 and address 0, which starts with the 512 root entries. */
  function PrintPageTablePage(mem: Memory, root: bv64): (s: seq<Visit>)
    ensures |s| >= PtesPerPt && s[..PtesPerPt] == Entries(mem, root, 0, 1)
    ensures forall k :: 0 <= k < |s| ==> 1 <= s[k].level <= 3
  {
    Walk(mem, root, 0, 1)
  }

  /** Every walk starts with the table's 512 entries in index order, each at its stepped address. */
  lemma WalkStartsWithEntries(mem: Memory, pt: bv64, vaddr: nat, level: nat)
    ensures |Walk(mem, pt, vaddr, level)| >= PtesPerPt
    ensures forall i :: 0 <= i < PtesPerPt ==>
      Walk(mem, pt, vaddr, level)[i] == Visit(level, i, mem(pt, i), (vaddr + i * Step(level)) % Pow64)
  {}

  /** A table without pointer entries is printed on its own. */
  lemma {:induction false} NoPointerNoDescent(mem: Memory, pt: bv64, vaddr: nat, level: nat, i: nat)
    requires level < 3 && i <= PtesPerPt
    requires forall j :: i <= j < PtesPerPt ==> !IsPointer(mem(pt, j))
    ensures Children(mem, pt, vaddr, level, i) == []
    decreases PtesPerPt - i
  {
    if i < PtesPerPt {
      NoPointerNoDescent(mem, pt, vaddr, level, i + 1);
    }
  }

  /**
   * v is the line printed for entry v.index of the sub-table that pointer
   * entry j of the table at pt points to, at that sub-table's stepped address.
   */
  predicate ChildOf(mem: Memory, pt: bv64, vaddr: nat, level: nat, j: nat, v: Visit)
  {
    j < PtesPerPt && IsPointer(mem(pt, j)) && v.index < PtesPerPt &&
    v == Visit(level + 1, v.index, mem(MapEntryToPhysicalAddress(mem(pt, j)), v.index),
               EntryAddress(EntryAddress(vaddr, level, j), level + 1, v.index))
  }

  /** The lines of a walk at its own level are exactly the table's entries, which come first. */
  lemma WalkOwnLevelIsEntries(mem: Memory, pt: bv64, vaddr: nat, level: nat, k: nat)
    requires level < 3 && k < |Walk(mem, pt, vaddr, level)| && Walk(mem, pt, vaddr, level)[k].level == level
    ensures k < PtesPerPt && Walk(mem, pt, vaddr, level)[k] == Entries(mem, pt, vaddr, level)[k]
  {
  }

  /**
   * Every line the second loop prints one level down, from entry i on, belongs
   * to a pointer entry j >= i: it is an entry of the sub-table j points to.
   */
  lemma {:induction false} ChildrenHaveParents(mem: Memory, pt: bv64, vaddr: nat, level: nat, i: nat)
    requires level < 3 && i <= PtesPerPt
    ensures forall k :: 0 <= k < |Children(mem, pt, vaddr, level, i)| && Children(mem, pt, vaddr, level, i)[k].level == level + 1 ==>
      exists j :: i <= j && ChildOf(mem, pt, vaddr, level, j, Children(mem, pt, vaddr, level, i)[k])
    decreases PtesPerPt - i
  {
    if i < PtesPerPt {
      var x := mem(pt, i);
      var w: seq<Visit> := if IsPointer(x) then Walk(mem, MapEntryToPhysicalAddress(x), EntryAddress(vaddr, level, i), level + 1) else [];
      var rest: seq<Visit> := Children(mem, pt, vaddr, level, i + 1);
      ChildrenHaveParents(mem, pt, vaddr, level, i + 1);
      assert Children(mem, pt, vaddr, level, i) == w + rest;
      forall k | 0 <= k < |w + rest| && (w + rest)[k].level == level + 1
        ensures exists j :: i <= j && ChildOf(mem, pt, vaddr, level, j, (w + rest)[k])
      {
        if k < |w| {
          SubTableLineIsChild(mem, pt, vaddr, level, i);
          assert (w + rest)[k] == w[k];
        } else {
          assert (w + rest)[k] == rest[k - |w|];
        }
      }
    }
  }

  /** A line of pointer entry i's sub-table walk at the next level is a child of entry i. */
  lemma SubTableLineIsChild(mem: Memory, pt: bv64, vaddr: nat, level: nat, i: nat)
    requires level < 3 && i < PtesPerPt && IsPointer(mem(pt, i))
    ensures var w := Walk(mem, MapEntryToPhysicalAddress(mem(pt, i)), EntryAddress(vaddr, level, i), level + 1);
      forall k :: 0 <= k < |w| && w[k].level == level + 1 ==> ChildOf(mem, pt, vaddr, level, i, w[k])
  {
    var sub := MapEntryToPhysicalAddress(mem(pt, i));
    var base := EntryAddress(vaddr, level, i);
    var w := Walk(mem, sub, base, level + 1);
    forall k | 0 <= k < |w| && w[k].level == level + 1
      ensures ChildOf(mem, pt, vaddr, level, i, w[k])
    {
      if level + 1 < 3 {
        WalkOwnLevelIsEntries(mem, sub, base, level + 1, k);
      }
      assert k < PtesPerPt;
      assert w[k] == Entries(mem, sub, base, level + 1)[k];
    }
  }

  /** Under a table that fits the Sv39 space, such a line lies inside the range of its parent entry. */
  lemma ChildInsideParent(mem: Memory, pt: bv64, vaddr: nat, level: nat, j: nat, v: Visit)
    requires 1 <= level < 3 && FitsInSpace(vaddr, level) && ChildOf(mem, pt, vaddr, level, j, v)
    ensures EntryAddress(vaddr, level, j) <= v.vaddr < EntryAddress(vaddr, level, j) + Step(level)
  {
    var base := EntryAddress(vaddr, level, j);
    ChildFits(vaddr, level, j);
    EntryInside(base, level + 1, v.index);
    StepsNest(level);
    assert v.index * Step(level + 1) < PtesPerPt * Step(level + 1);
  }

  /**
   * Under a table that fits, every line one level down from entry i on lies in
   * the virtual range of some pointer entry j >= i, which is its parent.
   */
  lemma ChildrenInsideParents(mem: Memory, pt: bv64, vaddr: nat, level: nat, i: nat)
    requires 1 <= level < 3 && i <= PtesPerPt && FitsInSpace(vaddr, level)
    ensures forall k :: 0 <= k < |Children(mem, pt, vaddr, level, i)| && Children(mem, pt, vaddr, level, i)[k].level == level + 1 ==>
      exists j :: i <= j < PtesPerPt && IsPointer(mem(pt, j)) &&
        EntryAddress(vaddr, level, j) <= Children(mem, pt, vaddr, level, i)[k].vaddr < EntryAddress(vaddr, level, j) + Step(level)
  {
    var c := Children(mem, pt, vaddr, level, i);
    ChildrenHaveParents(mem, pt, vaddr, level, i);
    forall k | 0 <= k < |c| && c[k].level == level + 1
      ensures exists j :: i <= j < PtesPerPt && IsPointer(mem(pt, j)) &&
                EntryAddress(vaddr, level, j) <= c[k].vaddr < EntryAddress(vaddr, level, j) + Step(level)
    {
      var j :| i <= j && ChildOf(mem, pt, vaddr, level, j, c[k]);
      ChildInsideParent(mem, pt, vaddr, level, j, c[k]);
    }
  }

  /** A table at `level` whose entries' ranges end by the top of the Sv39 space. */
  predicate FitsInSpace(vaddr: nat, level: nat)
  {
    vaddr + PtesPerPt * Step(level) <= VaSpace
  }

  /** Every line printed under a table that fits has a 39-bit virtual address, so the 64-bit sum never wraps. */
  lemma {:induction false} WalkAddressesFit(mem: Memory, pt: bv64, vaddr: nat, level: nat)
    requires level >= 1 && FitsInSpace(vaddr, level)
    ensures forall k :: 0 <= k < |Walk(mem, pt, vaddr, level)| ==> Walk(mem, pt, vaddr, level)[k].vaddr < VaSpace
    decreases Depth(level), PtesPerPt + 1
  {
    forall i | 0 <= i < PtesPerPt
      ensures EntryAddress(vaddr, level, i) < VaSpace
    {
      EntryInside(vaddr, level, i);
    }
    if level < 3 {
      ChildrenAddressesFit(mem, pt, vaddr, level, 0);
    }
  }

  lemma {:induction false} ChildrenAddressesFit(mem: Memory, pt: bv64, vaddr: nat, level: nat, i: nat)
    requires 1 <= level < 3 && i <= PtesPerPt && FitsInSpace(vaddr, level)
    ensures forall k :: 0 <= k < |Children(mem, pt, vaddr, level, i)| ==>
      Children(mem, pt, vaddr, level, i)[k].vaddr < VaSpace
    decreases Depth(level), PtesPerPt - i
  {
    if i < PtesPerPt {
      var x := mem(pt, i);
      var head := if IsPointer(x) then Walk(mem, MapEntryToPhysicalAddress(x), EntryAddress(vaddr, level, i), level + 1) else [];
      var tail := Children(mem, pt, vaddr, level, i + 1);
      assert Children(mem, pt, vaddr, level, i) == head + tail;
      if IsPointer(x) {
        ChildFits(vaddr, level, i);
        WalkAddressesFit(mem, MapEntryToPhysicalAddress(x), EntryAddress(vaddr, level, i), level + 1);
      }
      assert forall k :: 0 <= k < |head| ==> head[k].vaddr < VaSpace;
      ChildrenAddressesFit(mem, pt, vaddr, level, i + 1);
      assert forall k :: 0 <= k < |tail| ==> tail[k].vaddr < VaSpace;
    }
  }

  /** Entry i of a fitting table starts below the top of the space, without wrap-around. */
  lemma EntryInside(vaddr: nat, level: nat, i: nat)
    requires FitsInSpace(vaddr, level) && i < PtesPerPt
    ensures EntryAddress(vaddr, level, i) == vaddr + i * Step(level) < VaSpace
  {
    assert i * Step(level) < PtesPerPt * Step(level);
  }

  /** The sub-table of entry i of a fitting table fits too. */
  lemma ChildFits(vaddr: nat, level: nat, i: nat)
    requires 1 <= level < 3
    requires FitsInSpace(vaddr, level) && i < PtesPerPt
    ensures FitsInSpace(EntryAddress(vaddr, level, i), level + 1)
  {
    EntryInside(vaddr, level, i);
    StepsNest(level);
    assert (i + 1) * Step(level) <= PtesPerPt * Step(level);
    assert (i + 1) * Step(level) == i * Step(level) + Step(level);
  }

  /** The dump from the root: all lines are at levels 1..3 and carry 39-bit addresses. */
  lemma RootWalkIsSv39(mem: Memory, root: bv64)
    ensures |PrintPageTablePage(mem, root)| >= PtesPerPt
    ensures forall k :: 0 <= k < |PrintPageTablePage(mem, root)| ==>
      1 <= PrintPageTablePage(mem, root)[k].level <= 3 && PrintPageTablePage(mem, root)[k].vaddr < VaSpace
  {
    WalkAddressesFit(mem, root, 0, 1);
  }

  /** A 39-bit address in 64 bits has nothing above bit 38. */
  lemma BelowSpaceAsWord(n: nat)
    requires n < 0x80_0000_0000
    ensures (n as bv64) < 0x80_0000_0000
  {}

  lemma HighZeroBelow(v: bv64)
    requires v < 0x80_0000_0000
    ensures v >> 39 == 0
  {}

  /** Root entry i (i >= 256) has an address in the upper half of the 39-bit space: bit 38 is set. */
  lemma UpperRootEntryAddress(i: nat)
    requires i < PtesPerPt
    ensures EntryAddress(0, 1, i) == i * Step(1)
    ensures i >= 256 <==> EntryAddress(0, 1, i) >= 0x40_0000_0000
  {
    assert i * Step(1) < PtesPerPt * Step(1);
    if i >= 256 {
      assert 256 * Step(1) <= i * Step(1);
    } else {
      assert i * Step(1) < 256 * Step(1);
    }
  }

  /**
   * What print_page_entry prints for every line of the dump from the root is a
   * canonical Sv39 address: the walk keeps v_addr below 2^39, and SignExtend
   * copies bit 38 into bits 39..63.
   */
  lemma RootWalkPrintsCanonical(mem: Memory, root: bv64)
    ensures forall k :: 0 <= k < |PrintPageTablePage(mem, root)| ==>
      PrintPageTablePage(mem, root)[k].vaddr < VaSpace &&
      Canonical(SignExtend(PrintPageTablePage(mem, root)[k].vaddr as bv64))
  {
    var s := PrintPageTablePage(mem, root);
    RootWalkIsSv39(mem, root);
    forall k | 0 <= k < |s|
      ensures Canonical(SignExtend(s[k].vaddr as bv64))
    {
      BelowSpaceAsWord(s[k].vaddr);
      HighZeroBelow(s[k].vaddr as bv64);
      SignExtendCanonical(s[k].vaddr as bv64);
    }
  }

  /**
   * The root lines of the dump whose address has bit 38 set (it lies in
   * [2^38, 2^39)) are exactly root entries 256 and up: the upper half of the
   * space, which SignExtend's contract prints with bits 39..63 set.
   */
  lemma RootUpperHalf(mem: Memory, root: bv64)
    ensures forall k :: 0 <= k < |PrintPageTablePage(mem, root)| && PrintPageTablePage(mem, root)[k].level == 1 ==>
      (PrintPageTablePage(mem, root)[k].index >= 256 <==> PrintPageTablePage(mem, root)[k].vaddr >= 0x40_0000_0000)
  {
    var s := PrintPageTablePage(mem, root);
    forall k | 0 <= k < |s| && s[k].level == 1
      ensures s[k].index >= 256 <==> s[k].vaddr >= 0x40_0000_0000
    {
      WalkOwnLevelIsEntries(mem, root, 0, 1, k);
      UpperRootEntryAddress(k);
    }
  }
}
