/** The memory behind a bus (memory.c): the ranges of the memory map, RAM as little-endian
    bytes, and the access functions over both.  Devices and the translation of virtual
    addresses are parameters; in machine mode, and elsewhere while satp says so, an address is
    not translated. */
module PhysicalMemory {
  import opened Words
  import opened Options
  import opened Memory
  import opened MemoryMap
  import opened Bytes

  /** The ranges, the bytes of each RAM range, and the state of the devices. */
  datatype Ram<D> = Ram(ranges: seq<Range>, contents: seq<seq<Byte>>, devices: D)

  /** access_type */
  datatype Purpose = FETCH | LOAD | STORE

  /** The outcome of a page-table walk, which may set bits in the tables and may run into
      an address without memory. */
  datatype Translation<D> = Translated(ram: Ram<D>, paddr: Word) | PageFault(ram: Ram<D>) | NoTable

  /** What lies behind the RAM: page tables, and devices by slot and offset. */
  datatype System<!D> = System(
    translate: (Ram<D>, Access, Purpose, Word) -> Translation<D>,
    read: (D, nat, Word, Width) -> (D, Word),
    write: (D, nat, Word, Word, Width) -> D)

  predicate Bare(a: Access) {
    a.privilege == 3 || a.satp < 0x8000_0000
  }

  /** translate_address */
  function Translate<D>(sys: System<D>, ram: Ram<D>, a: Access, purpose: Purpose, address: Word): Translation<D> {
    if Bare(a) then Translated(ram, address) else sys.translate(ram, a, purpose, address)
  }

  function Size(width: Width): (n: nat)
    ensures 1 <= n <= 4
  {
    match width
    case ByteWidth => 1
    case HalfWidth => 2
    case WordWidth => 4
  }

  /** Where n bytes from an address lie in RAM: slot and offset.  A pointer to a device, or
      bytes past the end of a range, cannot be read or written. */
  function Place<D>(ram: Ram<D>, address: Word, n: nat): (place: Option<(nat, nat)>)
    ensures place.Some? ==> place.value.0 < |ram.contents| && place.value.1 + n <= |ram.contents[place.value.0]|
  {
    match Lookup(ram.ranges, address)
    case None => None
    case Some(i) =>
      var o := Sub32(address, ram.ranges[i].address);
      if ram.ranges[i].isRam && i < |ram.contents| && o + n <= |ram.contents[i]| then Some((i, o)) else None
  }

  // ---------------------------------------------------------------- bytes of a value

  /** read_common_ram */
  function ValueAt(bytes: seq<Byte>, o: nat, width: Width): Word
    requires o + Size(width) <= |bytes|
  {
    match width
    case ByteWidth => bytes[o]
    case HalfWidth => var b0: int, b1: int := bytes[o], bytes[o + 1]; b0 + b1 * 0x100
    case WordWidth => WordAt(bytes, o)
  }

  /** The low bytes of a value, lowest first (write_common_ram). */
  function LowBytes(width: Width, value: Word): (s: seq<Byte>)
    ensures |s| == Size(width)
  {
    match width
    case ByteWidth => [value % 0x100]
    case HalfWidth => [value % 0x100, value / 0x100 % 0x100]
    case WordWidth => [value % 0x100, value / 0x100 % 0x100, value / 0x1_0000 % 0x100, value / 0x100_0000]
  }

  /** The part of a value that fits a width. */
  function LowPart(width: Width, value: Word): Word {
    match width
    case ByteWidth => value % 0x100
    case HalfWidth => value % 0x1_0000
    case WordWidth => value
  }

  function Patched(bytes: seq<Byte>, o: nat, data: seq<Byte>): (s: seq<Byte>)
    requires o + |data| <= |bytes|
    ensures |s| == |bytes|
    ensures forall i :: 0 <= i < |bytes| ==> s[i] == if o <= i < o + |data| then data[i - o] else bytes[i]
  {
    bytes[..o] + data + bytes[o + |data|..]
  }

  lemma PatchReadsBack(bytes: seq<Byte>, o: nat, width: Width, value: Word)
    requires o + Size(width) <= |bytes|
    ensures ValueAt(Patched(bytes, o, LowBytes(width, value)), o, width) == LowPart(width, value)
  {
    match width {
      case ByteWidth =>
      case HalfWidth => DivDiv(value, 0x100, 0x100);
      case WordWidth => BytesOfWord(value);
    }
  }

  // ---------------------------------------------------------------- accesses

  /** The word under a pointer. */
  function RamWord<D>(ram: Ram<D>, at: Word): Word {
    match Place(ram, at, 4)
    case None => 0
    case Some((i, o)) => WordAt(ram.contents[i], o)
  }

  /** get_memory_target for a fetch. */
  function RamTarget<D>(sys: System<D>, ram: Ram<D>, a: Access, address: Word): Target<Ram<D>> {
    match Translate(sys, ram, a, FETCH, address)
    case PageFault(r) => TargetFault(r)
    case NoTable => TargetNull(ram)
    case Translated(r, at) =>
      if Lookup(r.ranges, at).None? then TargetUnmapped(r)
      else if Place(r, at, 4).None? then TargetNull(r)
      else Target.Target(r, at)
  }

  /** read_common */
  function RamLoad<D>(sys: System<D>, ram: Ram<D>, a: Access, width: Width, address: Word): Load<Ram<D>> {
    match Translate(sys, ram, a, LOAD, address)
    case PageFault(r) => LoadFault(r)
    case NoTable => LoadUnmapped
    case Translated(r, paddr) =>
      match Lookup(r.ranges, paddr)
      case None => LoadUnmapped
      case Some(slot) =>
        if r.ranges[slot].isRam then
          match Place(r, paddr, Size(width))
          case None => LoadUnmapped
          case Some((i, o)) => Loaded(r, ValueAt(r.contents[i], o, width))
        else
          var (devices, value) := sys.read(r.devices, slot, Sub32(paddr, r.ranges[slot].address), width);
          Loaded(r.(devices := devices), value)
  }

  /** write_common */
  function RamStore<D>(sys: System<D>, ram: Ram<D>, a: Access, width: Width, address: Word, value: Word): Store<Ram<D>> {
    match Translate(sys, ram, a, STORE, address)
    case PageFault(r) => StoreFault(r)
    case NoTable => StoreUnmapped
    case Translated(r, paddr) =>
      match Lookup(r.ranges, paddr)
      case None => StoreUnmapped
      case Some(slot) =>
        if r.ranges[slot].isRam then
          match Place(r, paddr, Size(width))
          case None => StoreUnmapped
          case Some((i, o)) => Stored(r.(contents := r.contents[i := Patched(r.contents[i], o, LowBytes(width, value))]))
        else
          Stored(r.(devices := sys.write(r.devices, slot, Sub32(paddr, r.ranges[slot].address), value, width)))
  }

  function RamBus<D>(sys: System<D>): Bus<Ram<D>> {
    Bus((ram, a, address) => RamTarget(sys, ram, a, address),
        (ram, at) => RamWord(ram, at),
        (ram, a, width, address) => RamLoad(sys, ram, a, width, address),
        (ram, a, width, address, value) => RamStore(sys, ram, a, width, address, value))
  }

  // ---------------------------------------------------------------- loads after stores

  /** A value stored in RAM is loaded back, cut to its width. */
  lemma StoreThenLoad<D>(sys: System<D>, ram: Ram<D>, a: Access, a': Access, width: Width, address: Word, value: Word)
    requires Bare(a) && Bare(a') && Place(ram, address, Size(width)).Some?
    ensures var stored := RamStore(sys, ram, a, width, address, value);
            stored.Stored? && RamLoad(sys, stored.mem, a', width, address) == Loaded(stored.mem, LowPart(width, value))
  {
    hide ValueAt, LowBytes, LowPart, Lookup;
    var (i, o) := Place(ram, address, Size(width)).value;
    PatchReadsBack(ram.contents[i], o, width, value);
  }

  /** n bytes at p and n' bytes at p' have none in common. */
  predicate Apart(p: int, n: nat, p': int, n': nat) {
    p + n <= p' || p' + n' <= p
  }

  /** A store leaves every word apart from it as it was. */
  lemma StoreElsewhere<D>(sys: System<D>, ram: Ram<D>, a: Access, width: Width, address: Word, value: Word, at: Word)
    requires Bare(a) && RamStore(sys, ram, a, width, address, value).Stored?
    requires Apart(address, Size(width), at, 4)
    ensures RamWord(RamStore(sys, ram, a, width, address, value).mem, at) == RamWord(ram, at)
  {
    hide LowBytes;
    var ram' := RamStore(sys, ram, a, width, address, value).mem;
    if Place(ram, at, 4).Some? && Place(ram, address, Size(width)).Some? {
      var (i, o) := Place(ram, address, Size(width)).value;
      var (j, o') := Place(ram, at, 4).value;
      OffsetFits(ram.ranges[i], address);
      OffsetFits(ram.ranges[j], at);
    }
  }

  // ---------------------------------------------------------------- words put into RAM

  /** RAM with another word at an address. */
  function PutWord<D>(ram: Ram<D>, at: Word, w: Word): Ram<D> {
    match Place(ram, at, 4)
    case None => ram
    case Some((i, o)) => ram.(contents := ram.contents[i := Patched(ram.contents[i], o, LowBytes(WordWidth, w))])
  }

  lemma PutKeepsPlaces<D>(ram: Ram<D>, at: Word, w: Word, p: Word, n: nat)
    ensures Place(PutWord(ram, at, w), p, n) == Place(ram, p, n)
    ensures PutWord(ram, at, w).ranges == ram.ranges && PutWord(ram, at, w).devices == ram.devices
  {
    hide LowBytes, Lookup;
  }

  lemma PutReadsBack<D>(ram: Ram<D>, at: Word, w: Word)
    requires Place(ram, at, 4).Some?
    ensures RamWord(PutWord(ram, at, w), at) == w
  {
    hide LowBytes, Lookup, WordAt;
    PutKeepsPlaces(ram, at, w, at, 4);
    var (i, o) := Place(ram, at, 4).value;
    PatchReadsBack(ram.contents[i], o, WordWidth, w);
    assert ValueAt(PutWord(ram, at, w).contents[i], o, WordWidth) == WordAt(PutWord(ram, at, w).contents[i], o);
  }

  lemma PutElsewhere<D>(ram: Ram<D>, p: Word, value: Word, at: Word)
    requires Apart(p, 4, at, 4)
    ensures RamWord(PutWord(ram, p, value), at) == RamWord(ram, at)
  {
    hide LowBytes;
    PutKeepsPlaces(ram, p, value, at, 4);
    if Place(ram, at, 4).Some? && Place(ram, p, 4).Some? {
      OffsetFits(ram.ranges[Place(ram, p, 4).value.0], p);
      OffsetFits(ram.ranges[Place(ram, at, 4).value.0], at);
    }
  }
}
