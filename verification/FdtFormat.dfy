/** What the calls of the device-tree generator (fdt.c) add to a tree under construction,
    as functions on values: the structure block grows at its end, the names of properties
    are kept in the order in which they were first used. */
module FdtFormat {
  import opened Words
  import opened Bytes
  import opened StringTable

  const FDT_MAGIC: Word := 0xD00D_FEED
  const FDT_VERSION: Word := 17
  const FDT_BEGIN_NODE: Word := 1
  const FDT_END_NODE: Word := 2
  const FDT_PROP: Word := 3
  const FDT_NOP: Word := 4
  const FDT_END: Word := 9

  /** A tree under construction: the structure block, the property names and the number of
      nodes that are begun and not ended. */
  datatype Fdt = Fdt(structure: seq<Byte>, names: seq<CString>, open: int)

  const EMPTY: Fdt := Fdt([], [], 0)

  /** The least number of bytes that fills n up to a multiple of a. */
  function Padding(n: nat, a: nat): (p: nat)
    requires a > 0
    ensures p < a
  {
    if n % a == 0 then 0 else a - n % a
  }

  lemma PaddingFills(n: nat, a: nat, p: nat)
    requires a > 0
    ensures (n + Padding(n, a)) % a == 0
    ensures (n + p) % a == 0 ==> Padding(n, a) <= p
  {
    var q, r := n / a, n % a;
    assert n == a * q + r;
    if r == 0 {
      assert n == a * q + 0;
    } else {
      assert n + (a - r) == a * (q + 1) + 0 by {
        assert a * (q + 1) == a * q + a;
      }
      DivUnique(n + (a - r), a, q + 1, 0);
      if p < a - r {
        DivUnique(n + p, a, q, r + p);
      }
    }
  }

  function Padded(data: seq<Byte>): seq<Byte> {
    data + Zeros(Padding(|data|, 4))
  }

  function Put32(f: Fdt, v: Word): Fdt {
    f.(structure := f.structure + Be32(v))
  }

  function PutData(f: Fdt, data: seq<Byte>): Fdt {
    f.(structure := f.structure + Padded(data))
  }

  function BeginNode(f: Fdt, name: CString): Fdt {
    PutData(Put32(f, FDT_BEGIN_NODE), name + [0]).(open := f.open + 1)
  }

  function EndNode(f: Fdt): Fdt {
    Put32(f, FDT_END_NODE).(open := f.open - 1)
  }

  /** The three words before the value of a property. */
  function PropHead(f: Fdt, name: CString, len: nat): Fdt {
    var g := Put32(Put32(f, FDT_PROP), ToWord(len));
    var names := Intern(g.names, name);
    Put32(g.(names := names), ToWord(OffsetOf(names, name)))
  }

  function Prop(f: Fdt, name: CString, data: seq<Byte>): Fdt {
    PutData(PropHead(f, name, |data|), data)
  }

  /** A table of words in big-endian order. */
  function BeTable(tab: seq<Word>): (s: seq<Byte>)
    ensures |s| == 4 * |tab|
  {
    if tab == [] then [] else BeTable(tab[..|tab| - 1]) + Be32(tab[|tab| - 1])
  }

  /** The entry points through which a tree is written. */
  datatype Call =
    | Begin(nodeName: CString)
    | End
    | Property(name: CString, data: seq<Byte>)
    | WordsProperty(name: CString, tab: seq<Word>)
    | StringsProperty(name: CString, strings: seq<CString>)

  function Apply(f: Fdt, call: Call): Fdt {
    match call
    case Begin(name) => BeginNode(f, name)
    case End => EndNode(f)
    case Property(name, data) => Prop(f, name, data)
    case WordsProperty(name, tab) => Prop(f, name, BeTable(tab))
    case StringsProperty(name, strings) => Prop(f, name, Table(strings))
  }

  function Run(f: Fdt, calls: seq<Call>): Fdt {
    if calls == [] then f else Apply(Run(f, calls[..|calls| - 1]), calls[|calls| - 1])
  }

  // ---------------------------------------------------------------- the finished blob

  /** The fields of struct fdt_header, in its order. */
  function Header(fields: seq<Word>): (s: seq<Byte>)
    requires |fields| == 10
    ensures |s| == 40
  {
    BeTable(fields)
  }

  function OffRsvmap(structSize: nat): nat {
    40 + structSize + Padding(40 + structSize, 8)
  }

  function OffStrings(structSize: nat): nat {
    OffRsvmap(structSize) + 16
  }

  function TotalSize(structSize: nat, stringsSize: nat): nat {
    OffStrings(structSize) + stringsSize + Padding(OffStrings(structSize) + stringsSize, 8)
  }

  function HeaderFields(structSize: nat, stringsSize: nat): (fields: seq<Word>)
    ensures |fields| == 10
  {
    [FDT_MAGIC, ToWord(TotalSize(structSize, stringsSize)), 40, ToWord(OffStrings(structSize)),
     ToWord(OffRsvmap(structSize)), FDT_VERSION, 16, 0, ToWord(stringsSize), ToWord(structSize)]
  }

  /** The blob: header, structure block, memory reservation block with only its final entry,
      and strings block. */
  function Blob(structure: seq<Byte>, strings: seq<Byte>): (s: seq<Byte>)
    ensures |s| == TotalSize(|structure|, |strings|)
  {
    Header(HeaderFields(|structure|, |strings|))
    + structure + Zeros(Padding(40 + |structure|, 8))
    + Zeros(16)
    + strings + Zeros(Padding(OffStrings(|structure|) + |strings|, 8))
  }

  /** fdt_output first ends the structure block. */
  function Output(f: Fdt): seq<Byte> {
    Blob(Put32(f, FDT_END).structure, Table(f.names))
  }
}
