/** What the device tree of the emulated board says, on the bytes of its properties: the
    addresses of vm.h, the interrupts, the kernel and its command line, as section 2 of the
    Devicetree Specification (v0.4) lays out property values. */
module BoardSpec {
  import opened Words
  import opened Options
  import opened Bytes
  import opened StringTable
  import opened FdtReader

  /** The bytes are the characters of a literal. */
  predicate Text(s: seq<Byte>, literal: string) {
    |s| == |literal| && forall i :: 0 <= i < |literal| ==> s[i] == literal[i] as int
  }

  // <u32>, <u64>, <string> and <stringlist> values

  predicate U32(v: seq<Byte>, n: int) {
    |v| == 4 && BeAt(v, 0) == n
  }

  predicate Cells(v: seq<Byte>, a: int, b: int, c: int, d: int) {
    |v| == 16 && BeAt(v, 0) == a && BeAt(v, 4) == b && BeAt(v, 8) == c && BeAt(v, 12) == d
  }

  predicate U64(v: seq<Byte>, n: int) {
    |v| == 8 && BeAt(v, 0) * 0x1_0000_0000 + BeAt(v, 4) == n % 0x1_0000_0000_0000_0000
  }

  predicate U64Pair(v: seq<Byte>, n: int, n': int) {
    && |v| == 16
    && BeAt(v, 0) * 0x1_0000_0000 + BeAt(v, 4) == n % 0x1_0000_0000_0000_0000
    && BeAt(v, 8) * 0x1_0000_0000 + BeAt(v, 12) == n' % 0x1_0000_0000_0000_0000
  }

  predicate Str(v: seq<Byte>, literal: string) {
    |v| == |literal| + 1 && Text(v[..|literal|], literal) && v[|literal|] == 0
  }

  predicate Str2(v: seq<Byte>, a: string, b: string) {
    |v| > |a| && Str(v[..|a| + 1], a) && Str(v[|a| + 1..], b)
  }

  /** A node of this name with that many properties and children. */
  predicate IsNode(t: Tree, name: string, properties: nat, children: nat) {
    Text(t.name, name) && |t.attributes| == properties && |t.children| == children
  }

  predicate HasName(t: Tree, i: nat, name: string) {
    i < |t.attributes| && Text(t.attributes[i].name, name)
  }

  predicate HasU32(t: Tree, i: nat, name: string, n: int) {
    HasName(t, i, name) && U32(t.attributes[i].value, n)
  }

  predicate HasStr(t: Tree, i: nat, name: string, literal: string) {
    HasName(t, i, name) && Str(t.attributes[i].value, literal)
  }

  predicate HasU64(t: Tree, i: nat, name: string, n: int) {
    HasName(t, i, name) && U64(t.attributes[i].value, n)
  }

  predicate HasU64Pair(t: Tree, i: nat, name: string, n: int, n': int) {
    HasName(t, i, name) && U64Pair(t.attributes[i].value, n, n')
  }

  predicate HasNothing(t: Tree, i: nat, name: string) {
    HasName(t, i, name) && t.attributes[i].value == []
  }

  // ---------------------------------------------------------------- the nodes

  predicate IsRoot(t: Tree) {
    && IsNode(t, "", 4, 4)
    && HasU32(t, 0, "#address-cells", 2) && HasU32(t, 1, "#size-cells", 2)
    && HasStr(t, 2, "compatible", "ucbbar,riscvemu-bar") && HasStr(t, 3, "model", "emuriscv,emuriscv")
  }

  predicate IsCpus(t: Tree) {
    && IsNode(t, "cpus", 3, 1)
    && HasU32(t, 0, "#address-cells", 1) && HasU32(t, 1, "#size-cells", 0)
    && HasU32(t, 2, "timebase-frequency", 10_000_000)
  }

  predicate IsCpu(t: Tree, maxXlen: nat) {
    && IsNode(t, "cpu@0", 7, 1)
    && HasStr(t, 0, "device_type", "cpu") && HasU32(t, 1, "reg", 0) && HasStr(t, 2, "status", "okay")
    && HasStr(t, 3, "compatible", "riscv") && HasStr(t, 4, "riscv,isa", "rv32i")
    && HasStr(t, 5, "mmu-type", if maxXlen <= 32 then "riscv,sv32" else "riscv,sv48")
    && HasU32(t, 6, "clock-frequency", 10_000_000)
  }

  predicate IsController(t: Tree) {
    && IsNode(t, "interrupt-controller", 4, 0)
    && HasU32(t, 0, "#interrupt-cells", 1) && HasNothing(t, 1, "interrupt-controller")
    && HasStr(t, 2, "compatible", "riscv,cpu-intc") && HasU32(t, 3, "phandle", 1)
  }

  /** The RAM of the board. */
  predicate IsMemory(t: Tree, ramSize: nat) {
    && IsNode(t, "memory@80000000", 2, 0)
    && HasStr(t, 0, "device_type", "memory") && HasU64Pair(t, 1, "reg", 0x8000_0000, ramSize)
  }

  predicate IsSoc(t: Tree) {
    && IsNode(t, "soc", 4, 2)
    && HasU32(t, 0, "#address-cells", 2) && HasU32(t, 1, "#size-cells", 2)
    && HasName(t, 2, "compatible") && Str2(t.attributes[2].value, "ucbbar,riscvemu-bar-soc", "simple-bus")
    && HasNothing(t, 3, "ranges")
  }

  /** The core-local interrupter: software interrupt 3 and timer interrupt 7 of the controller
      with handle 1. */
  predicate IsClint(t: Tree) {
    && IsNode(t, "clint@2000000", 3, 0)
    && HasStr(t, 0, "compatible", "riscv,clint0")
    && HasName(t, 1, "interrupts-extended") && Cells(t.attributes[1].value, 1, 3, 1, 7)
    && HasU64Pair(t, 2, "reg", 0x200_0000, 0xC_0000)
  }

  predicate IsUart(t: Tree) {
    && IsNode(t, "uart@10000000", 2, 0)
    && HasStr(t, 0, "compatible", "sifive,uart0") && HasU64Pair(t, 1, "reg", 0x1000_0000, 0x100)
  }

  /** The command line, and where the kernel lies if there is one. */
  predicate IsChosen(t: Tree, kernelStart: nat, kernelSize: nat, cmdLine: Option<CString>) {
    && IsNode(t, "chosen", if kernelSize > 0 then 4 else 2, 0)
    && HasName(t, 0, "bootargs") && t.attributes[0].value == (if cmdLine.Some? then cmdLine.value else []) + [0]
    && (kernelSize > 0 ==>
          && HasU64(t, 1, "riscv,kernel-start", kernelStart)
          && HasU64(t, 2, "riscv,kernel-end", kernelStart + kernelSize))
    && HasStr(t, if kernelSize > 0 then 3 else 1, "stdout-path", "/soc/uart@10000000")
  }

  /** The whole tree. */
  predicate DescribesBoard(t: Tree, maxXlen: nat, ramSize: nat, kernelStart: nat, kernelSize: nat, cmdLine: Option<CString>) {
    && IsRoot(t)
    && var cpus, memory, soc, chosen := t.children[0], t.children[1], t.children[2], t.children[3];
       && IsCpus(cpus) && IsCpu(cpus.children[0], maxXlen)
       && IsController(cpus.children[0].children[0])
       && IsMemory(memory, ramSize)
       && IsSoc(soc) && IsClint(soc.children[0]) && IsUart(soc.children[1])
       && IsChosen(chosen, kernelStart, kernelSize, cmdLine)
  }
}
