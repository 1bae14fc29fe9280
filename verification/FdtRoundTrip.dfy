/** Writing any tree depth-first through the entry points of the generator, and reading the
    blob back. */
module FdtRoundTrip {
  import opened Words
  import opened Options
  import opened Bytes
  import opened StringTable
  import opened FdtFormat
  import opened FdtWriter
  import opened FdtLayout
  import opened FdtReader

  // ---------------------------------------------------------------- depth-first writing

  /** The calls that write a tree depth-first. */
  function Calls(t: Tree): seq<Call>
    decreases t
  {
    [Begin(t.name)] + AttributeCalls(t.attributes) + ChildCalls(t.children) + [End]
  }

  function AttributeCalls(attributes: seq<Attribute>): seq<Call> {
    if attributes == [] then []
    else [Property(attributes[0].name, attributes[0].value)] + AttributeCalls(attributes[1..])
  }

  function ChildCalls(children: seq<Tree>): seq<Call>
    decreases children
  {
    if children == [] then [] else Calls(children[0]) + ChildCalls(children[1..])
  }

  lemma {:induction false} RunSum(f: Fdt, a: seq<Call>, b: seq<Call>)
    ensures Run(f, a + b) == Run(Run(f, a), b)
  {
    hide Apply;
    if b == [] {
      assert a + b == a;
    } else {
      var n := |b| - 1;
      assert (a + b)[..|a + b| - 1] == a + b[..n];
      RunSum(f, a, b[..n]);
    }
  }

  lemma RunOne(f: Fdt, call: Call)
    ensures Run(f, [call]) == Apply(f, call)
  {
    assert [call][..0] == [];
  }

  // ---------------------------------------------------------------- nesting depth

  /** The nodes begun and not ended. */
  function Depth(calls: seq<Call>): int {
    if calls == [] then 0
    else
      Depth(calls[..|calls| - 1])
      + (match calls[|calls| - 1] case Begin(_) => 1 case End => -1 case _ => 0)
  }

  /** open_node_count is the nesting depth, after any calls. */
  lemma {:induction false} OpenCountIsDepth(f: Fdt, calls: seq<Call>)
    ensures Run(f, calls).open == f.open + Depth(calls)
  {
    if calls == [] {
    } else {
      OpenCountIsDepth(f, calls[..|calls| - 1]);
    }
  }

  lemma {:induction false} DepthSum(a: seq<Call>, b: seq<Call>)
    ensures Depth(a + b) == Depth(a) + Depth(b)
  {
    if b == [] {
      assert a + b == a;
    } else {
      assert (a + b)[..|a + b| - 1] == a + b[..|b| - 1];
      DepthSum(a, b[..|b| - 1]);
    }
  }

  /** calls begin and end nodes in pairs: no prefix ends more than it begins. */
  ghost predicate Balanced(calls: seq<Call>) {
    Depth(calls) == 0 && forall k :: 0 <= k <= |calls| ==> Depth(calls[..k]) >= 0
  }

  lemma BalancedSum(a: seq<Call>, b: seq<Call>)
    requires Balanced(a) && Balanced(b)
    ensures Balanced(a + b)
  {
    DepthSum(a, b);
    forall k | 0 <= k <= |a + b|
      ensures Depth((a + b)[..k]) >= 0
    {
      if k <= |a| {
        assert (a + b)[..k] == a[..k];
      } else {
        assert (a + b)[..k] == a + b[..k - |a|];
        DepthSum(a, b[..k - |a|]);
      }
    }
  }

  /** Inside the calls that write a node the depth is at least one, and at their end the node
      is closed again. */
  lemma Wrapped(name: CString, inner: seq<Call>, k: nat)
    requires Balanced(inner) && k <= |inner| + 2
    ensures var calls := [Begin(name)] + inner + [End];
            && Depth(calls) == 0
            && (0 < k < |calls| ==> Depth(calls[..k]) >= 1)
            && Depth(calls[..k]) >= 0
  {
    var calls := [Begin(name)] + inner + [End];
    assert [Begin(name)][..0] == [] && [End][..0] == [];
    assert Depth([Begin(name)]) == 1 && Depth([End]) == -1;
    DepthSum([Begin(name)] + inner, [End]);
    DepthSum([Begin(name)], inner);
    if k == 0 {
      assert calls[..k] == [];
    } else if k < |calls| {
      assert calls[..k] == [Begin(name)] + inner[..k - 1];
      DepthSum([Begin(name)], inner[..k - 1]);
    } else {
      assert calls[..k] == calls;
    }
  }

  lemma {:induction false} AttributesBalanced(attributes: seq<Attribute>)
    ensures Balanced(AttributeCalls(attributes))
  {
    if attributes == [] {
    } else {
      AttributesBalanced(attributes[1..]);
      var first := [Property(attributes[0].name, attributes[0].value)];
      assert first[..0] == [] && first[..1] == first;
      assert Depth(first) == 0;
      BalancedSum(first, AttributeCalls(attributes[1..]));
    }
  }

  lemma {:induction false} ChildrenBalanced(children: seq<Tree>)
    ensures Balanced(ChildCalls(children))
    decreases children
  {
    if children == [] {
    } else {
      NodeBalanced(children[0]);
      ChildrenBalanced(children[1..]);
      BalancedSum(Calls(children[0]), ChildCalls(children[1..]));
    }
  }

  lemma {:induction false} NodeBalanced(t: Tree)
    ensures Balanced(Calls(t))
    decreases t, 1
  {
    var inner := Inner(t);
    forall k | 0 <= k <= |Calls(t)|
      ensures Depth(Calls(t)) == 0 && Depth(Calls(t)[..k]) >= 0
    {
      Wrapped(t.name, inner, k);
    }
    assert Depth(Calls(t)[..0]) >= 0;
  }

  /** The calls between the begin and the end of a node. */
  lemma Inner(t: Tree) returns (inner: seq<Call>)
    ensures Balanced(inner) && Calls(t) == [Begin(t.name)] + inner + [End]
    decreases t, 0
  {
    hide Balanced;
    AttributesBalanced(t.attributes);
    ChildrenBalanced(t.children);
    inner := AttributeCalls(t.attributes) + ChildCalls(t.children);
    BalancedSum(AttributeCalls(t.attributes), ChildCalls(t.children));
  }

  /** While a tree is written, open_node_count is at least one from the first call to the last
      but one, and zero at the end. */
  lemma OpenCountWhileWriting(t: Tree, k: nat)
    requires 0 < k <= |Calls(t)|
    ensures Run(EMPTY, Calls(t)[..k]).open == Depth(Calls(t)[..k]) >= 0
    ensures Run(EMPTY, Calls(t)[..k]).open == 0 <==> k == |Calls(t)|
  {
    hide Calls, Run, Depth, Balanced;
    OpenCountIsDepth(EMPTY, Calls(t)[..k]);
    var inner := Inner(t);
    Wrapped(t.name, inner, k);
    assert Calls(t)[..|Calls(t)|] == Calls(t);
  }

  // ---------------------------------------------------------------- what is emitted

  ghost predicate Named(attributes: seq<Attribute>, names: seq<CString>) {
    forall i :: 0 <= i < |attributes| ==> attributes[i].name in names
  }

  ghost predicate AllNamed(t: Tree, names: seq<CString>)
    decreases t
  {
    Named(t.attributes, names) && forall i :: 0 <= i < |t.children| ==> AllNamed(t.children[i], names)
  }

  ghost predicate ForestNamed(children: seq<Tree>, names: seq<CString>) {
    forall i :: 0 <= i < |children| ==> AllNamed(children[i], names)
  }

  /** The bytes of a property, of a node and of what lies inside a node, once the names have
      their final places. */
  ghost function AttributeBytes(a: Attribute, names: seq<CString>): seq<Byte>
    requires a.name in names
  {
    Be32(FDT_PROP) + Be32(ToWord(|a.value|)) + Be32(ToWord(OffsetOf(names, a.name))) + Padded(a.value)
  }

  ghost function AttributesBytes(attributes: seq<Attribute>, names: seq<CString>): seq<Byte>
    requires Named(attributes, names)
  {
    if attributes == [] then []
    else AttributeBytes(attributes[0], names) + AttributesBytes(attributes[1..], names)
  }

  ghost function NodeBytes(t: Tree, names: seq<CString>): seq<Byte>
    requires AllNamed(t, names)
    decreases t
  {
    Be32(FDT_BEGIN_NODE) + Padded(t.name + [0]) + AttributesBytes(t.attributes, names)
    + ForestBytes(t.children, names) + Be32(FDT_END_NODE)
  }

  ghost function ForestBytes(children: seq<Tree>, names: seq<CString>): seq<Byte>
    requires ForestNamed(children, names)
    decreases children
  {
    if children == [] then [] else NodeBytes(children[0], names) + ForestBytes(children[1..], names)
  }

  // ---------------------------------------------------------------- the generator emits it

  lemma {:induction false} NamesGrow(f: Fdt, calls: seq<Call>)
    ensures f.names <= Run(f, calls).names
  {
    if calls == [] {
    } else {
      NamesGrow(f, calls[..|calls| - 1]);
    }
  }

  lemma AttributeEmitted(f: Fdt, a: Attribute, later: seq<CString>)
    requires Intern(f.names, a.name) <= later
    ensures a.name in later
    ensures Prop(f, a.name, a.value) == Fdt(f.structure + AttributeBytes(a, later), Intern(f.names, a.name), f.open)
  {
    hide Be32, OffsetOf, Padded;
    OffsetStays(Intern(f.names, a.name), later, a.name);
    InLater(Intern(f.names, a.name), later, a.name);
  }

  lemma InLater(names: seq<CString>, later: seq<CString>, name: CString)
    requires name in names && names <= later
    ensures name in later
  {
    assert later[IndexOf(names, name)] == name;
  }

  lemma {:induction false} AttributesEmitted(f: Fdt, attributes: seq<Attribute>, later: seq<CString>)
    requires Run(f, AttributeCalls(attributes)).names <= later
    ensures Named(attributes, later)
    ensures var g := Run(f, AttributeCalls(attributes));
            g == Fdt(f.structure + AttributesBytes(attributes, later), g.names, f.open)
    decreases attributes
  {
    hide Prop, AttributeBytes, Run;
    if attributes == [] {
      RunNone(f);
    } else {
      var a, more := attributes[0], attributes[1..];
      var g := Prop(f, a.name, a.value);
      RunOne(f, Property(a.name, a.value));
      RunSum(f, [Property(a.name, a.value)], AttributeCalls(more));
      NamesGrow(g, AttributeCalls(more));
      PropNames(f, a);
      AttributeEmitted(f, a, later);
      AttributesEmitted(g, more, later);
      assert attributes == [a] + more;
    }
  }

  lemma PropNames(f: Fdt, a: Attribute)
    ensures Prop(f, a.name, a.value).names == Intern(f.names, a.name)
  {
  }

  lemma RunNone(f: Fdt)
    ensures Run(f, []) == f
  {
  }

  lemma {:induction false} ForestEmitted(f: Fdt, children: seq<Tree>, later: seq<CString>)
    requires Run(f, ChildCalls(children)).names <= later
    ensures ForestNamed(children, later)
    ensures var g := Run(f, ChildCalls(children));
            g == Fdt(f.structure + ForestBytes(children, later), g.names, f.open)
    decreases children
  {
    hide Run, NodeBytes, Calls, AllNamed;
    if children == [] {
      RunNone(f);
    } else {
      var child, more := children[0], children[1..];
      RunSum(f, Calls(child), ChildCalls(more));
      NamesGrow(Run(f, Calls(child)), ChildCalls(more));
      NodeEmitted(f, child, later);
      ForestEmitted(Run(f, Calls(child)), more, later);
      assert children == [child] + more;
    }
  }

  /** Writing a node appends its bytes, with the names at their final places, and leaves the
      nesting as it was. */
  lemma {:induction false} NodeEmitted(f: Fdt, t: Tree, later: seq<CString>)
    requires Run(f, Calls(t)).names <= later
    ensures AllNamed(t, later)
    ensures var g := Run(f, Calls(t));
            g == Fdt(f.structure + NodeBytes(t, later), g.names, f.open)
    decreases t
  {
    hide Run, AttributesBytes, ForestBytes, AttributeCalls, ChildCalls, Be32, Padded;
    var f1 := BeginNode(f, t.name);
    var f2 := Run(f1, AttributeCalls(t.attributes));
    var f3 := Run(f2, ChildCalls(t.children));
    NodeRun(f, t);
    NamesGrow(f2, ChildCalls(t.children));
    AttributesEmitted(f1, t.attributes, later);
    ForestEmitted(f2, t.children, later);
  }

  lemma NodeRun(f: Fdt, t: Tree)
    ensures Run(f, Calls(t)) ==
            EndNode(Run(Run(BeginNode(f, t.name), AttributeCalls(t.attributes)), ChildCalls(t.children)))
  {
    hide Run, BeginNode, EndNode, AttributeCalls, ChildCalls;
    var begin, attributes, children := [Begin(t.name)], AttributeCalls(t.attributes), ChildCalls(t.children);
    RunOne(f, Begin(t.name));
    RunSum(f, begin, attributes);
    RunSum(f, begin + attributes, children);
    RunSum(f, begin + attributes + children, [End]);
    RunOne(Run(f, begin + attributes + children), End);
  }

  // ---------------------------------------------------------------- the reader takes it back

  lemma TokenAhead(v: Word, rest: seq<Byte>)
    ensures At(Be32(v) + rest, v) && (Be32(v) + rest)[4..] == rest
    ensures v != FDT_NOP ==> SkipNops(Be32(v) + rest) == Be32(v) + rest
  {
    BeOfWord(v, rest);
  }

  /** The padding that the generator adds is the one that the reader skips. */
  lemma PaddingSkipped(n: nat)
    ensures n + Padding(n, 4) == RoundedUp(n)
  {
  }

  /** Where the parts of a property lie. */
  lemma AttributeLaidOut(a: Attribute, names: seq<CString>, rest: seq<Byte>)
    requires a.name in names && |a.value| < 0x1_0000_0000 && OffsetOf(names, a.name) < 0x1_0000_0000
    ensures var s := AttributeBytes(a, names) + rest;
            var size := 12 + RoundedUp(|a.value|);
            && At(s, FDT_PROP) && SkipNops(s) == s
            && size <= |s| && s[12..12 + |a.value|] == a.value && s[size..] == rest
            && BeAt(s, 4) == |a.value| && BeAt(s, 8) == OffsetOf(names, a.name)
  {
    hide Be32, BeAt, OffsetOf, Padding, Zeros, RoundedUp;
    PaddingSkipped(|a.value|);
    var offset := OffsetOf(names, a.name);
    var pad := Zeros(Padding(|a.value|, 4));
    var behind := a.value + pad + rest;
    var s := AttributeBytes(a, names) + rest;
    assert s == Be32(FDT_PROP) + (Be32(|a.value|) + (Be32(offset) + behind));
    TokenAhead(FDT_PROP, Be32(|a.value|) + (Be32(offset) + behind));
    WordAhead(Be32(FDT_PROP), |a.value|, Be32(offset) + behind);
    WordAhead(Be32(FDT_PROP) + Be32(|a.value|), offset, behind);
    assert s == Be32(FDT_PROP) + Be32(|a.value|) + (Be32(offset) + behind);
    assert s[12..12 + |a.value|] == a.value;
    assert s[12 + |a.value| + |pad|..] == rest;
  }

  lemma AttributeReadsBack(a: Attribute, names: seq<CString>, rest: seq<Byte>)
    requires a.name in names && |a.value| < 0x1_0000_0000 && |Table(names)| < 0x1_0000_0000
    ensures var s := AttributeBytes(a, names) + rest;
            At(s, FDT_PROP) && SkipNops(s) == s && ReadAttribute(s, Table(names)) == Some((a, rest))
  {
    hide BeAt, Table, OffsetOf, RoundedUp, AttributeBytes, SkipNops;
    OffsetReadsBack(names, names, a.name, []);
    assert Table(names) + [] == Table(names);
    NameEnds(names, a.name);
    AttributeLaidOut(a, names, rest);
  }

  lemma WordAhead(before: seq<Byte>, v: Word, rest: seq<Byte>)
    ensures BeAt(before + (Be32(v) + rest), |before|) == v
  {
    BeOfWord(v, rest);
    BeLater(before, Be32(v) + rest);
  }

  /** A name in the table is followed by its NUL. */
  lemma NameEnds(names: seq<CString>, name: CString)
    requires name in names
    ensures OffsetOf(names, name) + |name| < |Table(names)|
  {
    SplitAt(names, IndexOf(names, name));
  }

  ghost predicate Short(attributes: seq<Attribute>) {
    forall i :: 0 <= i < |attributes| ==> |attributes[i].value| < 0x1_0000_0000
  }

  lemma {:induction false} AttributesReadBack(attributes: seq<Attribute>, names: seq<CString>, rest: seq<Byte>)
    requires Named(attributes, names) && Short(attributes) && |Table(names)| < 0x1_0000_0000
    requires !At(rest, FDT_PROP) && !At(rest, FDT_NOP)
    ensures ReadAttributes(AttributesBytes(attributes, names) + rest, Table(names)) == Some((attributes, rest))
    decreases attributes
  {
    hide AttributeBytes, ReadAttribute, Table, Be32, BeAt;
    if attributes == [] {
      assert AttributesBytes(attributes, names) + rest == rest;
    } else {
      var a, more := attributes[0], attributes[1..];
      var behind := AttributesBytes(more, names) + rest;
      AttributeReadsBack(a, names, behind);
      AttributesReadBack(more, names, rest);
      assert AttributesBytes(attributes, names) + rest == AttributeBytes(a, names) + behind;
      assert attributes == [a] + more;
    }
  }

  /** The values of properties that fit into a blob have lengths that fit into a word. */
  lemma {:induction false} AttributesShort(attributes: seq<Attribute>, names: seq<CString>)
    requires Named(attributes, names) && |AttributesBytes(attributes, names)| < 0x1_0000_0000
    ensures Short(attributes)
    decreases attributes
  {
    hide Be32;
    if attributes == [] {
    } else {
      AttributesShort(attributes[1..], names);
      assert forall i :: 1 <= i < |attributes| ==> attributes[i] == attributes[1..][i - 1];
    }
  }

  lemma NameReadsBack(name: CString, rest: seq<Byte>)
    ensures ReadName(Padded(name + [0]) + rest) == Some((name, rest))
  {
    hide Padding, Zeros, CStringAt, RoundedUp;
    PaddingSkipped(|name| + 1);
    var pad := Zeros(Padding(|name| + 1, 4));
    var s := Padded(name + [0]) + rest;
    CStringReadsBack([], name, pad + rest);
    assert s == [] + name + [0] + (pad + rest);
    assert s[|name| + 1 + |pad|..] == rest;
  }

  lemma {:induction false} ForestReadsBack(children: seq<Tree>, names: seq<CString>, rest: seq<Byte>)
    requires ForestNamed(children, names) && |Table(names)| < 0x1_0000_0000
    requires |ForestBytes(children, names)| < 0x1_0000_0000
    ensures var s := ForestBytes(children, names) + (Be32(FDT_END_NODE) + rest);
            && !At(s, FDT_PROP) && !At(s, FDT_NOP)
            && ReadChildren(s, Table(names)) == Some((children, rest))
    decreases children
  {
    hide NodeBytes, ReadNode, AllNamed, Table, Be32, BeAt;
    var end := Be32(FDT_END_NODE) + rest;
    TokenAhead(FDT_END_NODE, rest);
    if children == [] {
      assert ForestBytes(children, names) + end == end;
    } else {
      var child, more := children[0], children[1..];
      var behind := ForestBytes(more, names) + end;
      NodeReadsBack(child, names, behind);
      ForestReadsBack(more, names, rest);
      assert ForestBytes(children, names) + end == NodeBytes(child, names) + behind;
      assert children == [child] + more;
    }
  }

  /** A reader that meets the bytes of a node takes the node and leaves what follows. */
  lemma {:induction false} NodeReadsBack(t: Tree, names: seq<CString>, rest: seq<Byte>)
    requires AllNamed(t, names) && |Table(names)| < 0x1_0000_0000
    requires |NodeBytes(t, names)| < 0x1_0000_0000
    ensures var s := NodeBytes(t, names) + rest;
            At(s, FDT_BEGIN_NODE) && SkipNops(s) == s && ReadNode(s, Table(names)) == Some((t, rest))
    decreases t
  {
    hide AttributesBytes, ForestBytes, ReadName, ReadAttributes, ReadChildren, Table, Be32, BeAt, Padded;
    var forest := ForestBytes(t.children, names) + (Be32(FDT_END_NODE) + rest);
    var inside := AttributesBytes(t.attributes, names) + forest;
    AttributesShort(t.attributes, names);
    ForestReadsBack(t.children, names, rest);
    AttributesReadBack(t.attributes, names, forest);
    NameReadsBack(t.name, inside);
    TokenAhead(FDT_BEGIN_NODE, Padded(t.name + [0]) + inside);
    assert NodeBytes(t, names) + rest == Be32(FDT_BEGIN_NODE) + (Padded(t.name + [0]) + inside);
  }

  lemma StructureReadsBack(t: Tree, names: seq<CString>)
    requires AllNamed(t, names) && |Table(names)| < 0x1_0000_0000
    requires |NodeBytes(t, names)| < 0x1_0000_0000
    ensures ReadStructure(NodeBytes(t, names) + Be32(FDT_END), Table(names)) == Some(t)
  {
    hide NodeBytes, ReadNode, Table, Be32, BeAt;
    var end := Be32(FDT_END);
    NodeReadsBack(t, names, end);
    TokenAhead(FDT_END, []);
    assert end + [] == end;
    assert SkipNops(end) == end && At(end, FDT_END);
  }

  lemma NoReservations(rest: seq<Byte>)
    ensures ReadReservations(Zeros(16) + rest) == Some([])
  {
    assert (Zeros(16) + rest)[..16] == Zeros(16);
  }

  /** A reader that follows the header finds the blocks. */
  lemma BlobReadsBack(structure: seq<Byte>, strings: seq<Byte>, rest: seq<Byte>, t: Tree)
    requires TotalSize(|structure|, |strings|) < 0x1_0000_0000
    requires ReadStructure(structure, strings) == Some(t)
    ensures Read(Blob(structure, strings) + rest) == Some(Image([], 0, t))
  {
    hide HeaderOf, Blob, ReadStructure, ReadReservations, Zeros, BeAt, Padding;
    var blob := Blob(structure, strings);
    var whole := blob + rest;
    HeaderAgrees(structure, strings);
    BlocksInOrder(|structure|, |strings|);
    SameHeader(whole, blob);
    FieldsByName(whole);
    var fields: seq<int> := HeaderOf(whole);
    PartOfWhole(blob, rest, fields[2], structure);
    PartOfWhole(blob, rest, fields[3], strings);
    RsvmapInWhole(blob, rest, fields[4]);
    NoReservations(blob[fields[4] + 16..]);
  }

  lemma FieldsByName(s: seq<Byte>)
    requires |s| >= 40
    ensures var fields := HeaderOf(s);
            && fields[0] == BeAt(s, 0) && fields[1] == BeAt(s, 4) && fields[2] == BeAt(s, 8) && fields[3] == BeAt(s, 12)
            && fields[4] == BeAt(s, 16) && fields[5] == BeAt(s, 20) && fields[6] == BeAt(s, 24) && fields[7] == BeAt(s, 28)
            && fields[8] == BeAt(s, 32) && fields[9] == BeAt(s, 36)
  {
    hide BeAt;
  }

  lemma PartOfWhole(blob: seq<Byte>, rest: seq<Byte>, o: int, part: seq<Byte>)
    requires LiesAt(blob, o, part)
    ensures (blob + rest)[o..o + |part|] == part
  {
  }

  lemma RsvmapInWhole(blob: seq<Byte>, rest: seq<Byte>, o: int)
    requires LiesAt(blob, o, Zeros(16))
    ensures (blob + rest)[o..|blob|] == Zeros(16) + blob[o + 16..]
  {
    assert blob[o..] == blob[o..o + 16] + blob[o + 16..];
  }

  /** The round trip: any tree, of any depth, with any properties of any byte values, is read
      back from the blob that the generator makes of it, whatever follows the blob in
      memory, if only the blob's size fits into its size field. */
  lemma RoundTrip(t: Tree, rest: seq<Byte>)
    requires |Output(Run(EMPTY, Calls(t)))| < 0x1_0000_0000
    ensures Read(Output(Run(EMPTY, Calls(t))) + rest) == Some(Image([], 0, t))
  {
    hide Run, Calls, NodeBytes, AllNamed, Table, Be32, Blob, ReadStructure;
    var f := Run(EMPTY, Calls(t));
    NodeEmitted(EMPTY, t, f.names);
    assert [] + NodeBytes(t, f.names) == NodeBytes(t, f.names);
    BlocksInOrder(|f.structure| + 4, |Table(f.names)|);
    StructureReadsBack(t, f.names);
    BlobReadsBack(f.structure + Be32(FDT_END), Table(f.names), rest, t);
  }

  /** Different trees give different blobs. */
  lemma BlobsTellTrees(t: Tree, t': Tree)
    requires |Output(Run(EMPTY, Calls(t)))| < 0x1_0000_0000
    requires Output(Run(EMPTY, Calls(t))) == Output(Run(EMPTY, Calls(t')))
    ensures t == t'
  {
    hide Output, Run, Calls, Read;
    RoundTrip(t, []);
    RoundTrip(t', []);
  }
}
