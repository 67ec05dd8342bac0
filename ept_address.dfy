/** Decomposition of a guest-physical address into the four 9-bit indices of
    the EPT radix tree, as fixed by the Intel SDM, Vol. 3C, section 28.2.2
    ("EPT Translation Mechanism"): bits 47:39 index the PML4, 38:30 the PDPT,
    29:21 the PD and 20:12 the PT; bits 11:0 are the page offset. */
module EptAddress {

  /** A guest-physical address, a 64-bit `uintptr_t` in the source. */
  type Gpa = x: int | 0 <= x < 0x1_0000_0000_0000_0000

  /** Entries in one table (`ept::num_entries`). */
  const Entries: nat := 512
  /** Bytes of one table: 512 entries of 8 bytes. */
  const TableBytes: nat := 4096
  /** Address bits consumed by one level (`ept::pt::size`). */
  const IndexWidth: nat := 9

  /** The bit at which each level's index field starts (`intel_x64::ept::*::from`). */
  const Pml4From: nat := 39
  const PdptFrom: nat := 30
  const PdFrom: nat := 21
  const PtFrom: nat := 12

  /** The first GPA that a 4-level walk cannot tell apart from a lower one. */
  const AddressLimit: nat := 0x1_0000_0000_0000

  /** One of the four index positions, i.e. one level of the tree. */
  type Shift = b: nat | b == PtFrom || b == PdFrom || b == PdptFrom || b == Pml4From witness PtFrom

  /** Bytes of guest-physical space one entry covers at the level whose index
      starts at `bits`: 4K, 2M, 1G or 512G. */
  function Span(bits: Shift): (n: nat)
    ensures n > 0
    ensures bits == PtFrom ==> n == TableBytes
    ensures bits > PtFrom ==> n == Span(bits - IndexWidth) * Entries
  {
    if bits == PtFrom then 0x1000
    else if bits == PdFrom then 0x20_0000
    else if bits == PdptFrom then 0x4000_0000
    else 0x80_0000_0000
  }

  /** The index into the table at level `bits`: the 9-bit field of `gpa` that
      starts at bit `bits`. */
  function Index(gpa: Gpa, bits: Shift): (i: nat)
    ensures i < Entries
  {
    (gpa / Span(bits)) % Entries
  }

  /** The number of the `Span(bits)`-sized region that holds `gpa`. */
  function Region(gpa: Gpa, bits: Shift): nat
  {
    gpa / Span(bits)
  }

  /** The region one level up is the region here with its low 9 bits dropped. */
  lemma RegionStep(gpa: Gpa, bits: Shift)
    requires bits > PtFrom
    ensures Region(gpa, bits) == Region(gpa, bits - IndexWidth) / Entries
    ensures Region(gpa, bits - IndexWidth) == Region(gpa, bits) * Entries + Index(gpa, bits - IndexWidth)
  {
    var s := bits - IndexWidth;
    if s == PtFrom {
      assert gpa / 0x20_0000 == (gpa / 0x1000) / 512;
    } else if s == PdFrom {
      assert gpa / 0x4000_0000 == (gpa / 0x20_0000) / 512;
    } else {
      assert gpa / 0x80_0000_0000 == (gpa / 0x4000_0000) / 512;
    }
  }

  /** Two GPAs in the same region at level `s` lie in the same region at every
      coarser level. */
  lemma {:induction false} RegionUp(g: Gpa, h: Gpa, s: Shift, bits: Shift)
    requires s <= bits && Region(g, s) == Region(h, s)
    ensures Region(g, bits) == Region(h, bits)
    decreases bits - s
  {
    if s < bits {
      RegionStep(g, s + IndexWidth);
      RegionStep(h, s + IndexWidth);
      RegionUp(g, h, s + IndexWidth, bits);
    }
  }

  /** Addresses that differ only below a granularity's boundary select the
      same entry at that level and at every level above it. */
  lemma SameRegionSameIndex(g: Gpa, h: Gpa, s: Shift, bits: Shift)
    requires s <= bits && Region(g, s) == Region(h, s)
    ensures Index(g, bits) == Index(h, bits)
  {
    RegionUp(g, h, s, bits);
  }

  /** Two distinct 4K frames (or 2M or 1G regions) inside the same region one
      level up select different entries of the table at that level. */
  lemma DistinctRegionsDistinctIndex(g: Gpa, h: Gpa, bits: Shift)
    requires bits < Pml4From
    requires Region(g, bits + IndexWidth) == Region(h, bits + IndexWidth)
    requires Region(g, bits) != Region(h, bits)
    ensures Index(g, bits) != Index(h, bits)
  {
    RegionStep(g, bits + IndexWidth);
    RegionStep(h, bits + IndexWidth);
  }

  /** The route of `g` and `h` agrees at every level from `bits` down to `end`. */
  predicate SameRoute(g: Gpa, h: Gpa, bits: Shift, end: Shift)
    requires end <= bits
    decreases bits
  {
    Index(g, bits) == Index(h, bits) && (bits > end ==> SameRoute(g, h, bits - IndexWidth, end))
  }

  /** Sharing a region at level `end` means sharing the route down to `end`. */
  lemma {:induction false} SameRegionSameRoute(g: Gpa, h: Gpa, bits: Shift, end: Shift)
    requires end <= bits && Region(g, end) == Region(h, end)
    ensures SameRoute(g, h, bits, end)
    decreases bits
  {
    SameRegionSameIndex(g, h, end, bits);
    if bits > end {
      SameRegionSameRoute(g, h, bits - IndexWidth, end);
    }
  }

  /** Below 2^48 the route down to `end` is exactly the region at `end`: the
      four indices are all of the address bits above the page offset. */
  lemma RouteIsRegion(g: Gpa, h: Gpa, end: Shift)
    requires g < AddressLimit && h < AddressLimit
    ensures SameRoute(g, h, Pml4From, end) <==> Region(g, end) == Region(h, end)
  {
    assert Region(g, Pml4From) == Index(g, Pml4From);
    assert Region(h, Pml4From) == Index(h, Pml4From);
    RouteFrom(g, h, Pml4From, end);
  }

  lemma {:induction false} RouteFrom(g: Gpa, h: Gpa, bits: Shift, end: Shift)
    requires end <= bits
    requires Region(g, bits) / Entries == Region(h, bits) / Entries
    ensures SameRoute(g, h, bits, end) <==> Region(g, end) == Region(h, end)
    decreases bits
  {
    var i, j := Index(g, bits), Index(h, bits);
    assert Region(g, bits) == Region(g, bits) / Entries * Entries + i;
    assert Region(h, bits) == Region(h, bits) / Entries * Entries + j;
    if bits > end {
      var s := bits - IndexWidth;
      RegionStep(g, bits);
      RegionStep(h, bits);
      if i == j {
        RouteFrom(g, h, s, end);
      } else if Region(g, end) == Region(h, end) {
        RegionUp(g, h, end, bits);
        assert false;
      }
    }
  }
}
