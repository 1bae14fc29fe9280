/** A reader of flattened device trees after sections 5.2 to 5.5 of the Devicetree
    Specification (v0.4).  It follows the offset fields of the header.  With the generator it
    shares big-endian words and C strings, and nothing of the format. */
module FdtReader {
  import opened Words
  import opened Options
  import opened Bytes
  import opened StringTable

  datatype Attribute = Attribute(name: CString, value: seq<Byte>)

  datatype Tree = Node(name: CString, attributes: seq<Attribute>, children: seq<Tree>)

  /** What a blob holds: memory reservations, the boot processor and the tree. */
  datatype Image = Image(reservations: seq<(seq<Byte>, seq<Byte>)>, bootCpu: Word, root: Tree)

  // ---------------------------------------------------------------- structure block (section 5.4)

  // the tokens of section 5.4.1
  const BEGIN_NODE: Word := 0x1
  const END_NODE: Word := 0x2
  const PROP: Word := 0x3
  const NOP: Word := 0x4
  const END: Word := 0x9

  /** Tokens start at multiples of four bytes. */
  function RoundedUp(n: nat): (r: nat)
    ensures n <= r < n + 4 && r % 4 == 0
  {
    (n + 3) / 4 * 4
  }

  /** Whether the next token is t. */
  predicate At(s: seq<Byte>, t: Word) {
    |s| >= 4 && BeAt(s, 0) == t
  }

  /** No-operation tokens say nothing. */
  function SkipNops(s: seq<Byte>): (r: seq<Byte>)
    ensures |r| <= |s| && !At(r, NOP)
  {
    if At(s, NOP) then SkipNops(s[4..]) else s
  }

  /** A node name with its NUL and the padding to the next token. */
  function ReadName(s: seq<Byte>): (r: Option<(CString, seq<Byte>)>)
    ensures r.Some? ==> |r.value.1| <= |s|
  {
    var name := CStringAt(s, 0);
    var size := RoundedUp(|name| + 1);
    if size <= |s| then Some((name, s[size..])) else None
  }

  /** A property: length, offset of the name in the strings block, value, padding. */
  function ReadAttribute(s: seq<Byte>, strings: seq<Byte>): (r: Option<(Attribute, seq<Byte>)>)
    requires At(s, PROP)
    ensures r.Some? ==> |r.value.1| < |s|
  {
    if |s| < 12 then None
    else
      var len: int, nameOffset: int := BeAt(s, 4), BeAt(s, 8);
      var size := 12 + RoundedUp(len);
      if size > |s| || nameOffset >= |strings| then None
      else
        var name := CStringAt(strings, nameOffset);
        if nameOffset + |name| == |strings| then None
        else Some((Attribute(name, s[12..12 + len]), s[size..]))
  }

  function ReadAttributes(s: seq<Byte>, strings: seq<Byte>): (r: Option<(seq<Attribute>, seq<Byte>)>)
    ensures r.Some? ==> |r.value.1| <= |s|
    decreases |s|
  {
    var t := SkipNops(s);
    if !At(t, PROP) then Some(([], t))
    else
      match ReadAttribute(t, strings)
      case None => None
      case Some((a, rest)) =>
        match ReadAttributes(rest, strings)
        case None => None
        case Some((more, rest')) => Some(([a] + more, rest'))
  }

  /** A node: its begin token and name, its properties, its children, its end token. */
  function ReadNode(s: seq<Byte>, strings: seq<Byte>): (r: Option<(Tree, seq<Byte>)>)
    ensures r.Some? ==> |r.value.1| < |s|
    decreases |s|, 1
  {
    var t := SkipNops(s);
    if !At(t, BEGIN_NODE) then None
    else
      match ReadName(t[4..])
      case None => None
      case Some((name, rest)) =>
        match ReadAttributes(rest, strings)
        case None => None
        case Some((attributes, rest')) =>
          match ReadChildren(rest', strings)
          case None => None
          case Some((children, rest'')) => Some((Node(name, attributes, children), rest''))
  }

  /** The children of a node, and the end token of the node. */
  function ReadChildren(s: seq<Byte>, strings: seq<Byte>): (r: Option<(seq<Tree>, seq<Byte>)>)
    ensures r.Some? ==> |r.value.1| < |s|
    decreases |s|, 2
  {
    var t := SkipNops(s);
    if At(t, END_NODE) then Some(([], t[4..]))
    else
      match ReadNode(t, strings)
      case None => None
      case Some((child, rest)) =>
        match ReadChildren(rest, strings)
        case None => None
        case Some((more, rest')) => Some(([child] + more, rest'))
  }

  /** One root node and the end token, which must be the last. */
  function ReadStructure(s: seq<Byte>, strings: seq<Byte>): Option<Tree> {
    match ReadNode(s, strings)
    case None => None
    case Some((root, rest)) =>
      var t := SkipNops(rest);
      if At(t, END) && |t| == 4 then Some(root) else None
  }

  // ---------------------------------------------------------------- the other blocks

  /** The memory reservation block (section 5.3): address and size of each entry, up to an
      entry of zeros. */
  function ReadReservations(s: seq<Byte>): Option<seq<(seq<Byte>, seq<Byte>)>> {
    if |s| < 16 then None
    else if s[..16] == Zeros(16) then Some([])
    else
      match ReadReservations(s[16..])
      case None => None
      case Some(more) => Some([(s[..8], s[8..16])] + more)
  }

  /** The header (section 5.2), and the blocks where it says they are (section 5.6). */
  function Read(blob: seq<Byte>): Option<Image> {
    if |blob| < 40 then None
    else
      var magic, total: int, structAt: int := BeAt(blob, 0), BeAt(blob, 4), BeAt(blob, 8);
      var stringsAt: int, rsvmapAt: int, version := BeAt(blob, 12), BeAt(blob, 16), BeAt(blob, 20);
      var lastCompatible, bootCpu := BeAt(blob, 24), BeAt(blob, 28);
      var stringsSize: int, structSize: int := BeAt(blob, 32), BeAt(blob, 36);
      if magic != 0xD00D_FEED || version < 17 || lastCompatible > 17 || total > |blob| then None
      else if structAt % 4 != 0 || rsvmapAt % 8 != 0 then None
      else if structAt + structSize > total || stringsAt + stringsSize > total || rsvmapAt > total then None
      else
        ReadBlocks(blob[rsvmapAt..total], bootCpu, blob[structAt..structAt + structSize],
                   blob[stringsAt..stringsAt + stringsSize])
  }

  function ReadBlocks(rsvmap: seq<Byte>, bootCpu: Word, structure: seq<Byte>, strings: seq<Byte>): Option<Image> {
    match (ReadReservations(rsvmap), ReadStructure(structure, strings))
    case (Some(reservations), Some(root)) => Some(Image(reservations, bootCpu, root))
    case _ => None
  }
}
