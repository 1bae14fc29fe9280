/** A client of the generator: any sequence of calls on one FDTState, in particular the
    depth-first calls of any tree, and the blob that is read back. */
module FdtClient {
  import opened Words
  import opened Options
  import opened Bytes
  import opened StringTable
  import opened FdtFormat
  import opened FdtWriter
  import opened FdtReader
  import opened FdtRoundTrip

  /** One call on the generator. */
  method Perform(s: FDTState, call: Call)
    requires s.Valid()
    modifies s, s.tab, s.stringTable
    ensures s.Valid() && (s.tab == old(s.tab) || fresh(s.tab)) && (s.stringTable == old(s.stringTable) || fresh(s.stringTable))
    ensures s.Value() == Apply(old(s.Value()), call)
  {
    hide BeginNode, EndNode, Prop, Table, Distinct, Thrifty;
    match call {
      case Begin(name) => s.FdtBeginNode(name);
      case End => s.FdtEndNode();
      case Property(name, data) => s.FdtProp(name, data);
      case WordsProperty(name, words) => s.FdtPropTabU32(name, words);
      case StringsProperty(name, strings) => s.FdtPropTabStr(name, strings);
    }
  }

  method PerformAll(s: FDTState, calls: seq<Call>)
    requires s.Valid()
    modifies s, s.tab, s.stringTable
    ensures s.Valid() && (s.tab == old(s.tab) || fresh(s.tab)) && (s.stringTable == old(s.stringTable) || fresh(s.stringTable))
    ensures s.Value() == Run(old(s.Value()), calls)
  {
    hide Apply;
    RunNone(s.Value());
    for i := 0 to |calls|
      invariant s.Valid() && (s.tab == old(s.tab) || fresh(s.tab)) && (s.stringTable == old(s.stringTable) || fresh(s.stringTable))
      invariant s.Value() == Run(old(s.Value()), calls[..i])
    {
      assert calls[..i + 1][..i] == calls[..i];
      Perform(s, calls[i]);
    }
    assert calls[..|calls|] == calls;
  }

  /** A fresh generator writes a tree and lays it out in a buffer: whatever the buffer held
      before, a reader of the format finds the tree in it. */
  method WriteTree(t: Tree, dst: array<Byte>) returns (size: nat)
    requires |Output(Run(EMPTY, Calls(t)))| < 0x8000_0000 && |Output(Run(EMPTY, Calls(t)))| <= dst.Length
    modifies dst
    ensures Read(dst[..]) == Some(Image([], 0, t))
    ensures size == |Output(Run(EMPTY, Calls(t)))| && dst[size..] == old(dst[size..])
  {
    size := WriteCalls(t, Calls(t), dst);
  }

  /** The same for any calls that come to those of a tree. */
  method WriteCalls(t: Tree, calls: seq<Call>, dst: array<Byte>) returns (size: nat)
    requires Run(EMPTY, calls) == Run(EMPTY, Calls(t))
    requires |Output(Run(EMPTY, Calls(t)))| < 0x8000_0000 && |Output(Run(EMPTY, Calls(t)))| <= dst.Length
    modifies dst
    ensures Read(dst[..]) == Some(Image([], 0, t))
    ensures size == |Output(Run(EMPTY, Calls(t)))| && dst[size..] == old(dst[size..])
  {
    hide Run, Calls, Read, Blob, TotalSize, Table, Distinct, Thrifty, Be32;
    var s := new FDTState();
    PerformAll(s, calls);
    size := s.FdtOutput(dst);
    RoundTrip(t, dst[size..]);
    assert dst[..] == dst[..size] + dst[size..];
  }

  // ---------------------------------------------------------------- properties of words and of strings

  predicate IsProperty(call: Call) {
    call.Property? || call.WordsProperty? || call.StringsProperty?
  }

  function AttributeOf(call: Call): Attribute
    requires IsProperty(call)
  {
    match call
    case Property(name, data) => Attribute(name, data)
    case WordsProperty(name, words) => Attribute(name, BeTable(words))
    case StringsProperty(name, strings) => Attribute(name, Table(strings))
  }

  function Attributes(calls: seq<Call>): (r: seq<Attribute>)
    requires forall i :: 0 <= i < |calls| ==> IsProperty(calls[i])
    ensures |r| == |calls|
  {
    if calls == [] then [] else [AttributeOf(calls[0])] + Attributes(calls[1..])
  }

  /** Word and string properties come to properties of the same bytes. */
  lemma {:induction false} RunAttributes(f: Fdt, calls: seq<Call>)
    requires forall i :: 0 <= i < |calls| ==> IsProperty(calls[i])
    ensures Run(f, calls) == Run(f, AttributeCalls(Attributes(calls)))
    decreases |calls|
  {
    hide Prop, Run;
    if calls == [] {
    } else {
      var a := AttributeOf(calls[0]);
      var plain := Property(a.name, a.value);
      RunOne(f, calls[0]);
      RunOne(f, plain);
      RunSum(f, [calls[0]], calls[1..]);
      RunSum(f, [plain], AttributeCalls(Attributes(calls[1..])));
      RunAttributes(Apply(f, calls[0]), calls[1..]);
      assert calls == [calls[0]] + calls[1..];
      assert Attributes(calls)[1..] == Attributes(calls[1..]);
    }
  }

  /** A node written by its property calls and the calls of its children. */
  lemma RunNode(f: Fdt, t: Tree, properties: seq<Call>, inside: seq<Call>)
    requires forall i :: 0 <= i < |properties| ==> IsProperty(properties[i])
    requires t.attributes == Attributes(properties)
    requires forall g :: Run(g, inside) == Run(g, ChildCalls(t.children))
    ensures Run(f, [Begin(t.name)] + properties + inside + [End]) == Run(f, Calls(t))
  {
    hide Run, BeginNode, EndNode, AttributeCalls, ChildCalls, Attributes;
    NodeRun(f, t);
    RunOne(f, Begin(t.name));
    RunSum(f, [Begin(t.name)], properties);
    RunAttributes(BeginNode(f, t.name), properties);
    RunSum(f, [Begin(t.name)] + properties, inside);
    RunSum(f, [Begin(t.name)] + properties + inside, [End]);
    RunOne(Run(f, [Begin(t.name)] + properties + inside), End);
  }
}
