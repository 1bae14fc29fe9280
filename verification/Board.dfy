/** riscv_build_fdt (fdt.c): the calls that describe the emulated board, and the tree that a
    reader finds in the blob. */
module Board {
  import opened Words
  import opened Options
  import opened Bytes
  import opened StringTable
  import opened FdtFormat
  import opened FdtLayout
  import opened FdtReader
  import opened FdtRoundTrip
  import opened FdtClient
  import opened BoardSpec

  /** The bytes of a string literal of characters below 256. */
  function Chars(literal: string): CString {
    seq(|literal|, i requires 0 <= i < |literal| =>
      if 0 < literal[i] as int < 256 then literal[i] as int as Byte else 63)
  }

  // fdt_prop_u32, fdt_prop_tab_u64, fdt_prop_tab_u64_2 and fdt_prop_str

  function PropU32(name: string, value: Word): Call {
    WordsProperty(Chars(name), [value])
  }

  function High64(v: nat): Word { ToWord(v / 0x1_0000_0000) }

  function PropU64(name: string, v: nat): Call {
    WordsProperty(Chars(name), [High64(v), ToWord(v)])
  }

  function PropU64Pair(name: string, v: nat, v': nat): Call {
    WordsProperty(Chars(name), [High64(v), ToWord(v), High64(v'), ToWord(v')])
  }

  function PropStr(name: string, value: string): Call {
    StringsProperty(Chars(name), [Chars(value)])
  }

  // ---------------------------------------------------------------- the properties, node by node

  const INTC_PHANDLE: Word := 1
  const RTC_FREQ: Word := 10000000

  function RootProperties(): (r: seq<Call>)
    ensures forall i :: 0 <= i < |r| ==> IsProperty(r[i])
  {
    [PropU32("#address-cells", 2), PropU32("#size-cells", 2), PropStr("compatible", "ucbbar,riscvemu-bar"),
     PropStr("model", "emuriscv,emuriscv")]
  }

  function CpusProperties(): (r: seq<Call>)
    ensures forall i :: 0 <= i < |r| ==> IsProperty(r[i])
  {
    [PropU32("#address-cells", 1), PropU32("#size-cells", 0), PropU32("timebase-frequency", RTC_FREQ)]
  }

  function CpuProperties(maxXlen: nat): (r: seq<Call>)
    ensures forall i :: 0 <= i < |r| ==> IsProperty(r[i])
  {
    [PropStr("device_type", "cpu"), PropU32("reg", 0), PropStr("status", "okay"), PropStr("compatible", "riscv"),
     PropStr("riscv,isa", "rv32i"), PropStr("mmu-type", if maxXlen <= 32 then "riscv,sv32" else "riscv,sv48"),
     PropU32("clock-frequency", RTC_FREQ)]
  }

  function ControllerProperties(): (r: seq<Call>)
    ensures forall i :: 0 <= i < |r| ==> IsProperty(r[i])
  {
    [PropU32("#interrupt-cells", 1), Property(Chars("interrupt-controller"), []),
     PropStr("compatible", "riscv,cpu-intc"), PropU32("phandle", INTC_PHANDLE)]
  }

  function MemoryProperties(ramSize: nat): (r: seq<Call>)
    ensures forall i :: 0 <= i < |r| ==> IsProperty(r[i])
  {
    [PropStr("device_type", "memory"), PropU64Pair("reg", 0x8000_0000, ramSize)]
  }

  function SocProperties(): (r: seq<Call>)
    ensures forall i :: 0 <= i < |r| ==> IsProperty(r[i])
  {
    [PropU32("#address-cells", 2), PropU32("#size-cells", 2),
     StringsProperty(Chars("compatible"), [Chars("ucbbar,riscvemu-bar-soc"), Chars("simple-bus")]),
     Property(Chars("ranges"), [])]
  }

  function ClintProperties(): (r: seq<Call>)
    ensures forall i :: 0 <= i < |r| ==> IsProperty(r[i])
  {
    [PropStr("compatible", "riscv,clint0"),
     WordsProperty(Chars("interrupts-extended"), [INTC_PHANDLE, 3, INTC_PHANDLE, 7]),
     PropU64Pair("reg", 0x200_0000, 0xC_0000)]
  }

  function UartProperties(): (r: seq<Call>)
    ensures forall i :: 0 <= i < |r| ==> IsProperty(r[i])
  {
    [PropStr("compatible", "sifive,uart0"), PropU64Pair("reg", 0x1000_0000, 0x100)]
  }

  function ChosenProperties(kernelStart: nat, kernelSize: nat, cmdLine: Option<CString>): (r: seq<Call>)
    ensures forall i :: 0 <= i < |r| ==> IsProperty(r[i])
  {
    [StringsProperty(Chars("bootargs"), [if cmdLine.Some? then cmdLine.value else []])]
    + (if kernelSize > 0 then
         [PropU64("riscv,kernel-start", kernelStart), PropU64("riscv,kernel-end", kernelStart + kernelSize)]
       else [])
    + [PropStr("stdout-path", "/soc/uart@10000000")]
  }

  // ---------------------------------------------------------------- the calls, in their order

  function CpusCalls(maxXlen: nat): seq<Call> {
    [Begin(Chars("cpus"))] + CpusProperties()
    + ([Begin(Chars("cpu@0"))] + CpuProperties(maxXlen)
       + ([Begin(Chars("interrupt-controller"))] + ControllerProperties() + [] + [End])
       + [End])
    + [End]
  }

  function MemoryCalls(ramSize: nat): seq<Call> {
    [Begin(Chars("memory@80000000"))] + MemoryProperties(ramSize) + [] + [End]
  }

  function SocCalls(): seq<Call> {
    [Begin(Chars("soc"))] + SocProperties()
    + (([Begin(Chars("clint@2000000"))] + ClintProperties() + [] + [End])
       + ([Begin(Chars("uart@10000000"))] + UartProperties() + [] + [End]))
    + [End]
  }

  function ChosenCalls(kernelStart: nat, kernelSize: nat, cmdLine: Option<CString>): seq<Call> {
    [Begin(Chars("chosen"))] + ChosenProperties(kernelStart, kernelSize, cmdLine) + [] + [End]
  }

  function BoardCalls(maxXlen: nat, ramSize: nat, kernelStart: nat, kernelSize: nat, cmdLine: Option<CString>): seq<Call> {
    [Begin([])] + RootProperties()
    + (CpusCalls(maxXlen)
       + (MemoryCalls(ramSize) + (SocCalls() + ChosenCalls(kernelStart, kernelSize, cmdLine))))
    + [End]
  }

  // ---------------------------------------------------------------- the tree

  function Leaf(name: string, properties: seq<Call>): Tree
    requires forall i :: 0 <= i < |properties| ==> IsProperty(properties[i])
  {
    Node(Chars(name), Attributes(properties), [])
  }

  function CpusTree(maxXlen: nat): Tree {
    Node(Chars("cpus"), Attributes(CpusProperties()),
         [Node(Chars("cpu@0"), Attributes(CpuProperties(maxXlen)), [Leaf("interrupt-controller", ControllerProperties())])])
  }

  function SocTree(): Tree {
    Node(Chars("soc"), Attributes(SocProperties()),
         [Leaf("clint@2000000", ClintProperties()), Leaf("uart@10000000", UartProperties())])
  }

  function BoardTree(maxXlen: nat, ramSize: nat, kernelStart: nat, kernelSize: nat, cmdLine: Option<CString>): Tree {
    Node([], Attributes(RootProperties()),
         [CpusTree(maxXlen), Leaf("memory@80000000", MemoryProperties(ramSize)), SocTree(),
          Leaf("chosen", ChosenProperties(kernelStart, kernelSize, cmdLine))])
  }

  lemma RunLeaf(f: Fdt, name: string, properties: seq<Call>)
    requires forall i :: 0 <= i < |properties| ==> IsProperty(properties[i])
    ensures Run(f, [Begin(Chars(name))] + properties + [] + [End]) == Run(f, Calls(Leaf(name, properties)))
  {
    RunNode(f, Leaf(name, properties), properties, []);
  }

  /** Calls that come to those of two lists of children, one after the other. */
  lemma RunFirst(f: Fdt, first: seq<Call>, t: Tree, more: seq<Call>, trees: seq<Tree>)
    requires forall g :: Run(g, first) == Run(g, Calls(t))
    requires forall g :: Run(g, more) == Run(g, ChildCalls(trees))
    ensures Run(f, first + more) == Run(f, ChildCalls([t] + trees))
  {
    hide Run, Calls;
    RunSum(f, first, more);
    RunSum(f, Calls(t), ChildCalls(trees));
    assert ([t] + trees)[1..] == trees;
  }

  lemma RunOnly(f: Fdt, calls: seq<Call>, t: Tree)
    requires Run(f, calls) == Run(f, Calls(t))
    ensures Run(f, calls) == Run(f, ChildCalls([t]))
  {
    hide Run, Calls;
    assert ChildCalls([t]) == Calls(t) + ChildCalls([t][1..]) == Calls(t);
  }

  lemma RunCpus(f: Fdt, maxXlen: nat)
    ensures Run(f, CpusCalls(maxXlen)) == Run(f, Calls(CpusTree(maxXlen)))
  {
    hide Run, Calls, ChildCalls, Chars, Attributes;
    var controller := Leaf("interrupt-controller", ControllerProperties());
    var controllerCalls := [Begin(Chars("interrupt-controller"))] + ControllerProperties() + [] + [End];
    var cpu := Node(Chars("cpu@0"), Attributes(CpuProperties(maxXlen)), [controller]);
    var cpuCalls := [Begin(Chars("cpu@0"))] + CpuProperties(maxXlen) + controllerCalls + [End];
    forall g ensures Run(g, controllerCalls) == Run(g, ChildCalls([controller])) {
      RunLeaf(g, "interrupt-controller", ControllerProperties());
      RunOnly(g, controllerCalls, controller);
    }
    forall g ensures Run(g, cpuCalls) == Run(g, ChildCalls([cpu])) {
      RunNode(g, cpu, CpuProperties(maxXlen), controllerCalls);
      RunOnly(g, cpuCalls, cpu);
    }
    RunNode(f, CpusTree(maxXlen), CpusProperties(), cpuCalls);
  }

  lemma RunSoc(f: Fdt)
    ensures Run(f, SocCalls()) == Run(f, Calls(SocTree()))
  {
    hide Run, Calls, ChildCalls, Chars, Attributes;
    var clint, uart := Leaf("clint@2000000", ClintProperties()), Leaf("uart@10000000", UartProperties());
    var clintCalls := [Begin(Chars("clint@2000000"))] + ClintProperties() + [] + [End];
    var uartCalls := [Begin(Chars("uart@10000000"))] + UartProperties() + [] + [End];
    forall g ensures Run(g, clintCalls) == Run(g, Calls(clint)) {
      RunLeaf(g, "clint@2000000", ClintProperties());
    }
    forall g ensures Run(g, uartCalls) == Run(g, ChildCalls([uart])) {
      RunLeaf(g, "uart@10000000", UartProperties());
      RunOnly(g, uartCalls, uart);
    }
    assert [clint] + [uart] == [clint, uart];
    forall g ensures Run(g, clintCalls + uartCalls) == Run(g, ChildCalls([clint, uart])) {
      RunFirst(g, clintCalls, clint, uartCalls, [uart]);
    }
    RunNode(f, SocTree(), SocProperties(), clintCalls + uartCalls);
  }

  lemma RunBoard(f: Fdt, maxXlen: nat, ramSize: nat, kernelStart: nat, kernelSize: nat, cmdLine: Option<CString>)
    ensures Run(f, BoardCalls(maxXlen, ramSize, kernelStart, kernelSize, cmdLine)) ==
            Run(f, Calls(BoardTree(maxXlen, ramSize, kernelStart, kernelSize, cmdLine)))
  {
    hide Run, Calls, ChildCalls, Chars, Attributes, CpusCalls, MemoryCalls, SocCalls, ChosenCalls;
    hide CpusTree, SocTree, Leaf, RootProperties;
    var cpus, memory, soc := CpusTree(maxXlen), Leaf("memory@80000000", MemoryProperties(ramSize)), SocTree();
    var chosen := Leaf("chosen", ChosenProperties(kernelStart, kernelSize, cmdLine));
    var chosenCalls := ChosenCalls(kernelStart, kernelSize, cmdLine);
    forall g ensures Run(g, chosenCalls) == Run(g, ChildCalls([chosen])) {
      RunChosen(g, kernelStart, kernelSize, cmdLine);
      RunOnly(g, chosenCalls, chosen);
    }
    assert [soc] + [chosen] == [soc, chosen];
    forall g ensures Run(g, SocCalls() + chosenCalls) == Run(g, ChildCalls([soc, chosen])) {
      forall k ensures Run(k, SocCalls()) == Run(k, Calls(soc)) { RunSoc(k); }
      RunFirst(g, SocCalls(), soc, chosenCalls, [chosen]);
    }
    assert [memory] + [soc, chosen] == [memory, soc, chosen];
    forall g ensures Run(g, MemoryCalls(ramSize) + (SocCalls() + chosenCalls)) == Run(g, ChildCalls([memory, soc, chosen])) {
      forall k ensures Run(k, MemoryCalls(ramSize)) == Run(k, Calls(memory)) { RunMemory(k, ramSize); }
      RunFirst(g, MemoryCalls(ramSize), memory, SocCalls() + chosenCalls, [soc, chosen]);
    }
    assert [cpus] + [memory, soc, chosen] == [cpus, memory, soc, chosen];
    var inside := CpusCalls(maxXlen) + (MemoryCalls(ramSize) + (SocCalls() + chosenCalls));
    forall g ensures Run(g, inside) == Run(g, ChildCalls([cpus, memory, soc, chosen])) {
      forall k ensures Run(k, CpusCalls(maxXlen)) == Run(k, Calls(cpus)) { RunCpus(k, maxXlen); }
      RunFirst(g, CpusCalls(maxXlen), cpus, MemoryCalls(ramSize) + (SocCalls() + chosenCalls), [memory, soc, chosen]);
    }
    RunRoot(f, BoardTree(maxXlen, ramSize, kernelStart, kernelSize, cmdLine), inside);
  }

  lemma RunRoot(f: Fdt, t: Tree, inside: seq<Call>)
    requires t.name == [] && t.attributes == Attributes(RootProperties())
    requires forall g :: Run(g, inside) == Run(g, ChildCalls(t.children))
    ensures Run(f, [Begin([])] + RootProperties() + inside + [End]) == Run(f, Calls(t))
  {
    hide Run, Calls, ChildCalls, Chars, Attributes;
    RunNode(f, t, RootProperties(), inside);
  }

  lemma RunMemory(f: Fdt, ramSize: nat)
    ensures Run(f, MemoryCalls(ramSize)) == Run(f, Calls(Leaf("memory@80000000", MemoryProperties(ramSize))))
  {
    hide Run, Calls, Chars, Leaf;
    RunLeaf(f, "memory@80000000", MemoryProperties(ramSize));
  }

  lemma RunChosen(f: Fdt, kernelStart: nat, kernelSize: nat, cmdLine: Option<CString>)
    ensures Run(f, ChosenCalls(kernelStart, kernelSize, cmdLine)) ==
            Run(f, Calls(Leaf("chosen", ChosenProperties(kernelStart, kernelSize, cmdLine))))
  {
    hide Run, Calls, Chars, Leaf;
    RunLeaf(f, "chosen", ChosenProperties(kernelStart, kernelSize, cmdLine));
  }

  // ---------------------------------------------------------------- what the tree says

  predicate Latin(literal: string) {
    forall i :: 0 <= i < |literal| ==> 0 < literal[i] as int < 256
  }

  lemma CharsText(literal: string)
    requires Latin(literal)
    ensures Text(Chars(literal), literal)
  {
  }

  lemma {:induction false} AttributeAt(calls: seq<Call>, i: nat)
    requires i < |calls| && forall k :: 0 <= k < |calls| ==> IsProperty(calls[k])
    ensures Attributes(calls)[i] == AttributeOf(calls[i])
  {
    if i == 0 {
    } else {
      AttributeAt(calls[1..], i - 1);
    }
  }

  lemma {:induction false} WordsAt(words: seq<Word>, k: nat)
    requires k < |words|
    ensures |BeTable(words)| == 4 * |words| && BeAt(BeTable(words), 4 * k) == words[k]
  {
    hide BeAt, BeTable;
    TableWord(words, [], k);
    assert BeTable(words) + [] == BeTable(words);
  }

  lemma BothHalves(n: nat)
    ensures High64(n) * 0x1_0000_0000 + ToWord(n) == n % 0x1_0000_0000_0000_0000
  {
    DivDiv(n, 0x1_0000_0000, 0x1_0000_0000);
  }

  lemma {:induction false} U32Says(t: Tree, calls: seq<Call>, i: nat, name: string, n: Word)
    requires Latin(name) && i < |calls| && calls[i] == PropU32(name, n)
    requires (forall k :: 0 <= k < |calls| ==> IsProperty(calls[k])) && t.attributes == Attributes(calls)
    ensures HasU32(t, i, name, n)
  {
    hide Chars, Text, Attributes, BeAt, BeTable;
    AttributeAt(calls, i);
    CharsText(name);
    WordsAt([n], 0);
  }

  lemma {:induction false} U64Says(t: Tree, calls: seq<Call>, i: nat, name: string, n: nat)
    requires Latin(name) && i < |calls| && calls[i] == PropU64(name, n)
    requires (forall k :: 0 <= k < |calls| ==> IsProperty(calls[k])) && t.attributes == Attributes(calls)
    ensures HasU64(t, i, name, n)
  {
    hide Chars, Text, Attributes, BeAt, BeTable, High64, ToWord;
    AttributeAt(calls, i);
    CharsText(name);
    var words := [High64(n), ToWord(n)];
    WordsAt(words, 0);
    WordsAt(words, 1);
    BothHalves(n);
  }

  lemma {:induction false} U64PairSays(t: Tree, calls: seq<Call>, i: nat, name: string, n: nat, n': nat)
    requires Latin(name) && i < |calls| && calls[i] == PropU64Pair(name, n, n')
    requires (forall k :: 0 <= k < |calls| ==> IsProperty(calls[k])) && t.attributes == Attributes(calls)
    ensures HasU64Pair(t, i, name, n, n')
  {
    hide Chars, Text, Attributes, BeAt, BeTable, High64, ToWord;
    AttributeAt(calls, i);
    CharsText(name);
    var words := [High64(n), ToWord(n), High64(n'), ToWord(n')];
    WordsAt(words, 0);
    WordsAt(words, 1);
    WordsAt(words, 2);
    WordsAt(words, 3);
    BothHalves(n);
    BothHalves(n');
  }

  lemma {:induction false} StringBytes(literal: string)
    requires Latin(literal)
    ensures Table([Chars(literal)]) == Chars(literal) + [0] && Str(Chars(literal) + [0], literal)
  {
    hide Chars;
    CharsText(literal);
    assert Table([Chars(literal)][1..]) == [];
    assert (Chars(literal) + [0])[..|literal|] == Chars(literal);
  }

  lemma {:induction false} StrSays(t: Tree, calls: seq<Call>, i: nat, name: string, literal: string)
    requires Latin(name) && Latin(literal) && i < |calls| && calls[i] == PropStr(name, literal)
    requires (forall k :: 0 <= k < |calls| ==> IsProperty(calls[k])) && t.attributes == Attributes(calls)
    ensures HasStr(t, i, name, literal)
  {
    hide Chars, Text, Attributes, Table, Str;
    AttributeAt(calls, i);
    CharsText(name);
    StringBytes(literal);
  }

  lemma {:induction false} NothingSays(t: Tree, calls: seq<Call>, i: nat, name: string)
    requires Latin(name) && i < |calls| && calls[i] == Property(Chars(name), [])
    requires (forall k :: 0 <= k < |calls| ==> IsProperty(calls[k])) && t.attributes == Attributes(calls)
    ensures HasNothing(t, i, name)
  {
    hide Chars, Text, Attributes;
    AttributeAt(calls, i);
    CharsText(name);
  }

  lemma {:induction false} RootSays(t: Tree)
    requires t.name == [] && t.attributes == Attributes(RootProperties()) && |t.children| == 4
    ensures IsRoot(t)
  {
    hide Chars, Attributes, HasU32, HasStr;
    var calls := RootProperties();
    U32Says(t, calls, 0, "#address-cells", 2);
    U32Says(t, calls, 1, "#size-cells", 2);
    StrSays(t, calls, 2, "compatible", "ucbbar,riscvemu-bar");
    StrSays(t, calls, 3, "model", "emuriscv,emuriscv");
  }

  lemma {:induction false} CpusSays(t: Tree)
    requires t.name == Chars("cpus") && t.attributes == Attributes(CpusProperties()) && |t.children| == 1
    ensures IsCpus(t)
  {
    hide Chars, Attributes, HasU32, HasStr;
    var calls := CpusProperties();
    CharsText("cpus");
    U32Says(t, calls, 0, "#address-cells", 1);
    U32Says(t, calls, 1, "#size-cells", 0);
    U32Says(t, calls, 2, "timebase-frequency", 10_000_000);
  }

  lemma {:induction false} CpuSays(t: Tree, maxXlen: nat)
    requires t.name == Chars("cpu@0") && t.attributes == Attributes(CpuProperties(maxXlen)) && |t.children| == 1
    ensures IsCpu(t, maxXlen)
  {
    hide Chars, Attributes, HasU32, HasStr;
    var calls := CpuProperties(maxXlen);
    CharsText("cpu@0");
    CpuModelSays(t, maxXlen);
    StrSays(t, calls, 4, "riscv,isa", "rv32i");
    StrSays(t, calls, 5, "mmu-type", if maxXlen <= 32 then "riscv,sv32" else "riscv,sv48");
    U32Says(t, calls, 6, "clock-frequency", 10_000_000);
  }

  lemma {:induction false} CpuModelSays(t: Tree, maxXlen: nat)
    requires t.attributes == Attributes(CpuProperties(maxXlen))
    ensures HasStr(t, 0, "device_type", "cpu") && HasU32(t, 1, "reg", 0) && HasStr(t, 2, "status", "okay")
    ensures HasStr(t, 3, "compatible", "riscv")
  {
    hide Chars, Attributes, HasU32, HasStr;
    var calls := CpuProperties(maxXlen);
    StrSays(t, calls, 0, "device_type", "cpu");
    U32Says(t, calls, 1, "reg", 0);
    StrSays(t, calls, 2, "status", "okay");
    StrSays(t, calls, 3, "compatible", "riscv");
  }

  lemma {:induction false} ControllerSays(t: Tree)
    requires t.name == Chars("interrupt-controller") && t.attributes == Attributes(ControllerProperties()) && t.children == []
    ensures IsController(t)
  {
    hide Chars, Attributes, HasU32, HasStr, HasNothing;
    var calls := ControllerProperties();
    CharsText("interrupt-controller");
    U32Says(t, calls, 0, "#interrupt-cells", 1);
    NothingSays(t, calls, 1, "interrupt-controller");
    StrSays(t, calls, 2, "compatible", "riscv,cpu-intc");
    U32Says(t, calls, 3, "phandle", 1);
  }

  lemma {:induction false} MemorySays(t: Tree, ramSize: nat)
    requires t.name == Chars("memory@80000000") && t.attributes == Attributes(MemoryProperties(ramSize)) && t.children == []
    ensures IsMemory(t, ramSize)
  {
    hide Chars, Attributes, HasStr, HasU64Pair;
    var calls := MemoryProperties(ramSize);
    CharsText("memory@80000000");
    StrSays(t, calls, 0, "device_type", "memory");
    U64PairSays(t, calls, 1, "reg", 0x8000_0000, ramSize);
  }

  lemma {:induction false} SocSays(t: Tree)
    requires t.name == Chars("soc") && t.attributes == Attributes(SocProperties()) && |t.children| == 2
    ensures IsSoc(t)
  {
    hide Chars, Attributes, HasU32, HasNothing, Str2, Table, Text;
    var calls := SocProperties();
    CharsText("soc");
    U32Says(t, calls, 0, "#address-cells", 2);
    U32Says(t, calls, 1, "#size-cells", 2);
    CompatibleSays(t);
    NothingSays(t, calls, 3, "ranges");
  }

  lemma {:induction false} CompatibleSays(t: Tree)
    requires t.attributes == Attributes(SocProperties())
    ensures HasName(t, 2, "compatible") && Str2(t.attributes[2].value, "ucbbar,riscvemu-bar-soc", "simple-bus")
  {
    hide Chars, Attributes, Str2, Table, Text;
    CharsText("compatible");
    AttributeAt(SocProperties(), 2);
    TwoStrings("ucbbar,riscvemu-bar-soc", "simple-bus");
  }

  lemma {:induction false} TwoStrings(a: string, b: string)
    requires Latin(a) && Latin(b)
    ensures Str2(Table([Chars(a), Chars(b)]), a, b)
  {
    hide Chars, Str;
    StringBytes(a);
    StringBytes(b);
    CharsLength(a);
    var v := Table([Chars(a), Chars(b)]);
    assert [Chars(a), Chars(b)][1..] == [Chars(b)];
    assert v == Chars(a) + [0] + (Chars(b) + [0]);
    assert v[..|a| + 1] == Chars(a) + [0] && v[|a| + 1..] == Chars(b) + [0];
  }

  lemma CharsLength(literal: string)
    ensures |Chars(literal)| == |literal|
  {
  }

  lemma {:induction false} ClintSays(t: Tree)
    requires t.name == Chars("clint@2000000") && t.attributes == Attributes(ClintProperties()) && t.children == []
    ensures IsClint(t)
  {
    hide Chars, Attributes, HasStr, HasU64Pair, Text, BeAt, BeTable;
    var calls := ClintProperties();
    CharsText("clint@2000000");
    CharsText("interrupts-extended");
    StrSays(t, calls, 0, "compatible", "riscv,clint0");
    AttributeAt(calls, 1);
    var words: seq<Word> := [1, 3, 1, 7];
    WordsAt(words, 0);
    WordsAt(words, 1);
    WordsAt(words, 2);
    WordsAt(words, 3);
    U64PairSays(t, calls, 2, "reg", 0x200_0000, 0xC_0000);
  }

  lemma {:induction false} UartSays(t: Tree)
    requires t.name == Chars("uart@10000000") && t.attributes == Attributes(UartProperties()) && t.children == []
    ensures IsUart(t)
  {
    hide Chars, Attributes, HasStr, HasU64Pair;
    var calls := UartProperties();
    CharsText("uart@10000000");
    StrSays(t, calls, 0, "compatible", "sifive,uart0");
    U64PairSays(t, calls, 1, "reg", 0x1000_0000, 0x100);
  }

  lemma {:induction false} BootargsSay(t: Tree, calls: seq<Call>, line: CString)
    requires 0 < |calls| && calls[0] == StringsProperty(Chars("bootargs"), [line])
    requires (forall k :: 0 <= k < |calls| ==> IsProperty(calls[k])) && t.attributes == Attributes(calls)
    ensures HasName(t, 0, "bootargs") && t.attributes[0].value == line + [0]
  {
    hide Chars, Attributes, Text;
    CharsText("bootargs");
    AttributeAt(calls, 0);
    assert Table([line]) == line + [0] + Table([line][1..]);
    assert [line][1..] == [];
  }

  lemma ChosenList(kernelStart: nat, kernelSize: nat, cmdLine: Option<CString>)
    ensures var calls := ChosenProperties(kernelStart, kernelSize, cmdLine);
            && |calls| == (if kernelSize > 0 then 4 else 2)
            && calls[0] == StringsProperty(Chars("bootargs"), [if cmdLine.Some? then cmdLine.value else []])
            && calls[|calls| - 1] == PropStr("stdout-path", "/soc/uart@10000000")
            && (kernelSize > 0 ==>
                  && calls[1] == PropU64("riscv,kernel-start", kernelStart)
                  && calls[2] == PropU64("riscv,kernel-end", kernelStart + kernelSize))
  {
    hide Chars, PropU64, PropStr;
  }

  lemma {:induction false} ChosenSays(t: Tree, kernelStart: nat, kernelSize: nat, cmdLine: Option<CString>)
    requires t.name == Chars("chosen") && t.children == []
    requires t.attributes == Attributes(ChosenProperties(kernelStart, kernelSize, cmdLine))
    ensures IsChosen(t, kernelStart, kernelSize, cmdLine)
  {
    hide Chars, Attributes, HasStr, HasU64, Text;
    var calls := ChosenProperties(kernelStart, kernelSize, cmdLine);
    ChosenList(kernelStart, kernelSize, cmdLine);
    hide ChosenProperties;
    CharsText("chosen");
    BootargsSay(t, calls, if cmdLine.Some? then cmdLine.value else []);
    if kernelSize > 0 {
      U64Says(t, calls, 1, "riscv,kernel-start", kernelStart);
      U64Says(t, calls, 2, "riscv,kernel-end", kernelStart + kernelSize);
      StrSays(t, calls, 3, "stdout-path", "/soc/uart@10000000");
    } else {
      StrSays(t, calls, 1, "stdout-path", "/soc/uart@10000000");
    }
  }

  /** The tree that the calls describe says what the board is. */
  lemma BoardIsDescribed(maxXlen: nat, ramSize: nat, kernelStart: nat, kernelSize: nat, cmdLine: Option<CString>)
    ensures DescribesBoard(BoardTree(maxXlen, ramSize, kernelStart, kernelSize, cmdLine),
                           maxXlen, ramSize, kernelStart, kernelSize, cmdLine)
  {
    hide Chars, Attributes, IsRoot, IsCpus, IsCpu, IsController, IsMemory, IsSoc, IsClint, IsUart, IsChosen;
    hide RootProperties, CpusProperties, CpuProperties, ControllerProperties, MemoryProperties, SocProperties;
    hide ClintProperties, UartProperties, ChosenProperties;
    var t := BoardTree(maxXlen, ramSize, kernelStart, kernelSize, cmdLine);
    RootSays(t);
    CpusSays(t.children[0]);
    CpuSays(t.children[0].children[0], maxXlen);
    ControllerSays(t.children[0].children[0].children[0]);
    MemorySays(t.children[1], ramSize);
    SocSays(t.children[2]);
    ClintSays(t.children[2].children[0]);
    UartSays(t.children[2].children[1]);
    ChosenSays(t.children[3], kernelStart, kernelSize, cmdLine);
  }

  /** riscv_build_fdt: for every RAM size, kernel and command line a reader finds in dst a tree
      that describes the board, property by property and byte by byte. */
  method BuildFdt(maxXlen: nat, ramSize: nat, dst: array<Byte>, kernelStart: nat, kernelSize: nat, cmdLine: Option<CString>)
    returns (size: nat)
    requires |Output(Run(EMPTY, Calls(BoardTree(maxXlen, ramSize, kernelStart, kernelSize, cmdLine))))| < 0x8000_0000
    requires |Output(Run(EMPTY, Calls(BoardTree(maxXlen, ramSize, kernelStart, kernelSize, cmdLine))))| <= dst.Length
    modifies dst
    ensures Read(dst[..]) == Some(Image([], 0, BoardTree(maxXlen, ramSize, kernelStart, kernelSize, cmdLine)))
    ensures DescribesBoard(Read(dst[..]).value.root, maxXlen, ramSize, kernelStart, kernelSize, cmdLine)
    ensures size == |Output(Run(EMPTY, Calls(BoardTree(maxXlen, ramSize, kernelStart, kernelSize, cmdLine))))|
    ensures dst[size..] == old(dst[size..])
  {
    hide Run, Output, Calls, BoardTree, BoardCalls, Read, DescribesBoard;
    BoardIsDescribed(maxXlen, ramSize, kernelStart, kernelSize, cmdLine);
    RunBoard(EMPTY, maxXlen, ramSize, kernelStart, kernelSize, cmdLine);
    size := WriteCalls(BoardTree(maxXlen, ramSize, kernelStart, kernelSize, cmdLine),
                       BoardCalls(maxXlen, ramSize, kernelStart, kernelSize, cmdLine), dst);
  }
}
