/** What a hart sees of memory.  Address translation, RAM and devices are left abstract: a bus
    is any four functions on a memory state.  An access is made with the privilege and the
    satp register on which translation depends.  It succeeds, raises a page fault, or hits no
    mapped range: a fetch reports that, a load or store dereferences a null range, which ends
    the program.  A fetch yields a pointer to the instruction, the form in which the handlers
    get it: whenever they take an operand they read the word that then lies there. */
module Memory {
  import opened Words

  datatype Width = ByteWidth | HalfWidth | WordWidth

  datatype Access = Access(privilege: Word, satp: Word)

  /** The outcome of looking up the pc: the instruction pointer, as a physical address.  A
      range without memory of its own, a device, gives a pointer that cannot be read. */
  datatype Target<+M> =
    | Target(mem: M, at: Word)
    | TargetFault(mem: M)
    | TargetUnmapped(mem: M)
    | TargetNull(mem: M)

  /** The same, with the word that lies under the pointer at that moment. */
  datatype Fetch<+M> =
    | Fetched(mem: M, word: Word)
    | FetchFault(mem: M)
    | FetchUnmapped(mem: M)
    | FetchNull(mem: M)

  datatype Load<+M> =
    | Loaded(mem: M, value: Word)
    | LoadFault(mem: M)
    | LoadUnmapped

  datatype Store<+M> =
    | Stored(mem: M)
    | StoreFault(mem: M)
    | StoreUnmapped

  datatype Bus<!M> = Bus(
    target: (M, Access, Word) -> Target<M>,
    word: (M, Word) -> Word,
    load: (M, Access, Width, Word) -> Load<M>,
    store: (M, Access, Width, Word, Word) -> Store<M>)
}
