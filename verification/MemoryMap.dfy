/** The table of physical memory ranges (memory_map.c) and the lookup in it
    (run_linux.c). */
module MemoryMap {
  import opened Words
  import opened Options

  const PHYS_MEM_RANGE_MAX := 32

  /** A registered range: RAM with its own memory, or a device. */
  datatype Range = Range(address: Word, size: Word, isRam: bool, memory: array?<Byte>)

  /** The test of get_phys_mem_range, whose upper end is a wrapping uint32_t sum. */
  predicate Covers(r: Range, paddr: Word) {
    paddr >= r.address && paddr < Add32(r.address, r.size)
  }

  /** The first range that covers an address. */
  function Lookup(ranges: seq<Range>, paddr: Word): (i: Option<nat>)
    ensures i.Some? ==> i.value < |ranges| && Covers(ranges[i.value], paddr)
    ensures i.Some? ==> forall j :: 0 <= j < i.value ==> !Covers(ranges[j], paddr)
    ensures i.None? ==> forall j :: 0 <= j < |ranges| ==> !Covers(ranges[j], paddr)
  {
    if ranges == [] then None
    else if Covers(ranges[0], paddr) then Some(0)
    else
      match Lookup(ranges[1..], paddr)
      case None => None
      case Some(i) => assert ranges[1..][i] == ranges[i + 1]; Some(i + 1)
  }

  class MemoryMap {
    var nPhysMemRange: nat
    const physMemRange: array<Range>

    ghost predicate Valid()
      reads this
    {
      physMemRange.Length == PHYS_MEM_RANGE_MAX && nPhysMemRange <= PHYS_MEM_RANGE_MAX
    }

    /** The registered ranges, in the order of registration. */
    ghost function Ranges(): (r: seq<Range>)
      reads this, physMemRange
      requires Valid()
      ensures |r| == nPhysMemRange
    {
      physMemRange[..nPhysMemRange]
    }

    /** phys_mem_map_init */
    constructor ()
      ensures Valid() && Ranges() == [] && fresh(physMemRange)
    {
      nPhysMemRange := 0;
      physMemRange := new Range[PHYS_MEM_RANGE_MAX](_ => Range(0, 0, false, null));
    }

    /** register_ram_entry: the program exits when the table is full, reported as None. */
    method RegisterRamEntry(base: Word, size: Word) returns (slot: Option<nat>)
      requires Valid()
      modifies this, physMemRange
      ensures Valid()
      ensures old(nPhysMemRange) == PHYS_MEM_RANGE_MAX ==> slot == None && Ranges() == old(Ranges())
      ensures old(nPhysMemRange) < PHYS_MEM_RANGE_MAX ==>
        slot == Some(old(nPhysMemRange)) && Ranges() == old(Ranges()) + [Range(base, size, true, null)]
    {
      if nPhysMemRange + 1 > PHYS_MEM_RANGE_MAX {
        return None;
      }
      slot := Some(nPhysMemRange);
      physMemRange[nPhysMemRange] := Range(base, size, true, null);
      nPhysMemRange := nPhysMemRange + 1;
    }

    /** cpu_register_ram: the entry gets zeroed memory of its own. */
    method RegisterRam(base: Word, size: Word) returns (slot: Option<nat>)
      requires Valid()
      modifies this, physMemRange
      ensures Valid()
      ensures old(nPhysMemRange) == PHYS_MEM_RANGE_MAX ==> slot == None && Ranges() == old(Ranges())
      ensures old(nPhysMemRange) < PHYS_MEM_RANGE_MAX ==>
        && slot == Some(old(nPhysMemRange))
        && nPhysMemRange == old(nPhysMemRange) + 1 && Ranges()[..old(nPhysMemRange)] == old(Ranges())
        && var r := Ranges()[old(nPhysMemRange)];
           r.address == base && r.size == size && r.isRam && r.memory != null && fresh(r.memory)
           && r.memory.Length == size && forall k :: 0 <= k < size ==> r.memory[k] == 0
    {
      slot := RegisterRamEntry(base, size);
      if slot.Some? {
        var memory := new Byte[size](_ => 0);
        physMemRange[slot.value] := physMemRange[slot.value].(memory := memory);
      }
    }

    /** cpu_register_device: 64-bit address and size are cut to 32 bits.  The program does not
        test for a full table but counts on and writes past the end of its array.  That is
        reported as None; the count is then wrong, and nothing else is promised. */
    method RegisterDevice(address: nat, size: nat) returns (slot: Option<nat>)
      requires Valid()
      modifies this, physMemRange
      ensures old(nPhysMemRange) == PHYS_MEM_RANGE_MAX ==> slot == None && nPhysMemRange == PHYS_MEM_RANGE_MAX + 1 && !Valid()
      ensures old(nPhysMemRange) < PHYS_MEM_RANGE_MAX ==>
        && Valid() && slot == Some(old(nPhysMemRange))
        && Ranges() == old(Ranges()) + [Range(ToWord(address), ToWord(size), false, null)]
    {
      var next := nPhysMemRange;
      nPhysMemRange := nPhysMemRange + 1;
      if next >= physMemRange.Length {
        return None;
      }
      physMemRange[next] := Range(ToWord(address), ToWord(size), false, null);
      slot := Some(next);
    }

    /** get_phys_mem_range: the slot of the range, or None for NULL. */
    method GetPhysMemRange(paddr: Word) returns (slot: Option<nat>)
      requires Valid()
      ensures slot == Lookup(Ranges(), paddr)
    {
      for i := 0 to nPhysMemRange
        invariant forall j :: 0 <= j < i ==> !Covers(physMemRange[j], paddr)
      {
        if Covers(physMemRange[i], paddr) {
          return Some(i);
        }
      }
      return None;
    }

    /** phys_mem_get_ram_ptr: the slot and the offset into its memory. */
    method GetRamPtr(paddr: Word) returns (pointer: Option<(nat, Word)>)
      requires Valid()
      ensures pointer.None? <==> Lookup(Ranges(), paddr).None?
      ensures pointer.Some? ==>
        && Lookup(Ranges(), paddr) == Some(pointer.value.0)
        && pointer.value.1 < Ranges()[pointer.value.0].size
        && Ranges()[pointer.value.0].address + pointer.value.1 == paddr
    {
      var slot := GetPhysMemRange(paddr);
      if slot.None? {
        return None;
      }
      OffsetFits(physMemRange[slot.value], paddr);
      return Some((slot.value, Sub32(paddr, physMemRange[slot.value].address)));
    }
  }

  // ---------------------------------------------------------------- properties of the lookup

  /** The addresses of a range, over the integers. */
  predicate Inside(r: Range, paddr: Word) {
    r.address <= paddr < r.address + r.size
  }

  /** The end of the range stays below 2^32. */
  predicate EndsInside(r: Range) {
    r.address + r.size < 0x1_0000_0000
  }

  /** The wrapping test is the intended one exactly for ranges whose end does not wrap; a
      range whose end wraps, even to 0, covers nothing. */
  lemma CoversInside(r: Range, paddr: Word)
    ensures Covers(r, paddr) <==> EndsInside(r) && Inside(r, paddr)
  {
  }

  /** A non-empty range is found at its own first address exactly when its end does not wrap. */
  lemma FoundIffEndsInside(r: Range)
    requires r.size > 0
    ensures Lookup([r], r.address) == Some(0) <==> EndsInside(r)
  {
    CoversInside(r, r.address);
  }

  lemma OffsetFits(r: Range, paddr: Word)
    requires Covers(r, paddr)
    ensures Sub32(paddr, r.address) < r.size && r.address + Sub32(paddr, r.address) == paddr
  {
    CoversInside(r, paddr);
  }

  predicate Disjoint(r: Range, r': Range) {
    r.address + r.size <= r'.address || r'.address + r'.size <= r.address || r.size == 0 || r'.size == 0
  }

  /** Ranges that do not wrap and do not overlap. */
  ghost predicate WellPlaced(ranges: seq<Range>) {
    && (forall i :: 0 <= i < |ranges| ==> EndsInside(ranges[i]))
    && (forall i, j :: 0 <= i < j < |ranges| ==> Disjoint(ranges[i], ranges[j]))
  }

  /** In well-placed ranges, the lookup returns the one range that holds the address, and
      nothing when none does. */
  lemma LookupFindsHolder(ranges: seq<Range>, paddr: Word)
    requires WellPlaced(ranges)
    ensures forall i :: 0 <= i < |ranges| ==> (Lookup(ranges, paddr) == Some(i) <==> Inside(ranges[i], paddr))
    ensures Lookup(ranges, paddr).None? <==> forall i :: 0 <= i < |ranges| ==> !Inside(ranges[i], paddr)
  {
    forall i | 0 <= i < |ranges|
      ensures Covers(ranges[i], paddr) <==> Inside(ranges[i], paddr)
    {
      CoversInside(ranges[i], paddr);
    }
    forall i, j | 0 <= i < j < |ranges|
      ensures !(Inside(ranges[i], paddr) && Inside(ranges[j], paddr))
    {
      assert Disjoint(ranges[i], ranges[j]);
    }
  }

  /** The range found, as a value. */
  function Found(ranges: seq<Range>, paddr: Word): Option<Range> {
    match Lookup(ranges, paddr)
    case None => None
    case Some(i) => Some(ranges[i])
  }

  /** Registering the same ranges in another order finds the same range everywhere. */
  lemma RegistrationOrderIrrelevant(ranges: seq<Range>, ranges': seq<Range>, paddr: Word)
    requires WellPlaced(ranges) && multiset(ranges) == multiset(ranges')
    ensures Found(ranges, paddr) == Found(ranges', paddr)
  {
    LookupFindsHolder(ranges, paddr);
    forall i | 0 <= i < |ranges'|
      ensures ranges'[i] in ranges
    {
      assert ranges'[i] in multiset(ranges');
    }
    match Lookup(ranges', paddr) {
      case Some(i) =>
        var k :| 0 <= k < |ranges| && ranges[k] == ranges'[i];
        CoversInside(ranges'[i], paddr);
      case None =>
        if Lookup(ranges, paddr).Some? {
          var r := ranges[Lookup(ranges, paddr).value];
          assert r in multiset(ranges');
          var k :| 0 <= k < |ranges'| && ranges'[k] == r;
          CoversInside(r, paddr);
        }
    }
  }
}
