/** The device-tree generator of fdt.c: FDTState with its growing word table and string
    table, updated in place, and fdt_output, which lays the blob out in a buffer. */
module FdtWriter {
  import opened Words
  import opened Bytes
  import opened StringTable
  import opened FdtFormat

  function MaxInt(a: nat, b: nat): nat {
    if a > b then a else b
  }

  /** The growth policy of both tables. */
  function Grown(size: nat, len: nat): nat {
    if len > size then MaxInt(len, size * 3 / 2) else size
  }

  /** Growing keeps the capacity within three halves of the length, and the cost of all
      reallocations, each of which moves the whole old block, within three times the
      capacity. */
  predicate Thrifty(len: nat, size: nat, moved: nat) {
    2 * size <= 3 * len && moved <= 3 * size
  }

  lemma GrowthStaysThrifty(len: nat, size: nat, moved: nat, len': nat)
    requires Thrifty(len, size, moved) && len <= len'
    ensures len' <= Grown(size, len')
    ensures Thrifty(len', Grown(size, len'), if len' > size then moved + size else moved)
  {
  }

  class FDTState {
    var tab: array<Byte>
    var tabLen: nat
    var tabSize: nat
    var openNodeCount: int
    var stringTable: array<Byte>
    var stringTableLen: nat
    var stringTableSize: nat

    /** The property names in the string table. */
    ghost var names: seq<CString>
    /** The words and the bytes that reallocations have moved so far. */
    ghost var moved: nat
    ghost var stringsMoved: nat

    /** tab is a block of words, four bytes each. */
    ghost predicate Valid()
      reads this, tab, stringTable
    {
      && tab != stringTable
      && tab.Length == 4 * tabSize && tabLen <= tabSize && Thrifty(tabLen, tabSize, moved)
      && StringsValid()
    }

    ghost predicate StringsValid()
      reads this, stringTable
    {
      && stringTable.Length == stringTableSize && stringTableLen <= stringTableSize
      && Thrifty(stringTableLen, stringTableSize, stringsMoved)
      && stringTable[..stringTableLen] == Table(names) && Distinct(names)
    }

    ghost function Structure(): seq<Byte>
      reads this, tab
      requires 4 * tabLen <= tab.Length
    {
      tab[..4 * tabLen]
    }

    ghost function Value(): Fdt
      reads this, tab, stringTable
      requires Valid()
    {
      Fdt(Structure(), names, openNodeCount)
    }

    /** fdt_init */
    constructor ()
      ensures Valid() && fresh(tab) && fresh(stringTable)
      ensures Value() == EMPTY
    {
      tab := new Byte[0];
      stringTable := new Byte[0];
      tabLen, tabSize, openNodeCount, stringTableLen, stringTableSize := 0, 0, 0, 0, 0;
      names, moved, stringsMoved := [], 0, 0;
    }

    /** fdt_alloc_len */
    method AllocLen(len: nat)
      requires Valid() && tabLen <= len
      modifies this`tab, this`tabSize, this`moved
      ensures tab == old(tab) || fresh(tab)
      ensures tab != stringTable && tab.Length == 4 * tabSize
      ensures tabSize == Grown(old(tabSize), len)
      ensures moved == old(moved) + (if len > old(tabSize) then old(tabSize) else 0)
      ensures len <= tabSize && Thrifty(len, tabSize, moved)
      ensures Structure() == old(Structure())
    {
      GrowthStaysThrifty(tabLen, tabSize, moved, len);
      if len > tabSize {
        var newSize := MaxInt(len, tabSize * 3 / 2);
        var larger := Realloc(tab, 4 * newSize);
        assert larger[..4 * tabLen] == larger[..tab.Length][..4 * tabLen];
        moved := moved + tabSize;
        tab := larger;
        tabSize := newSize;
      }
    }

    /** fdt_put32 */
    method FdtPut32(v: Word)
      requires Valid()
      modifies this`tab, this`tabSize, this`moved, this`tabLen, tab
      ensures Valid() && (tab == old(tab) || fresh(tab))
      ensures Value() == Put32(old(Value()), v)
    {
      hide Be32, BeAt, Thrifty;
      AllocLen(tabLen + 1);
      StoreTabBe(v);
    }

    /** The store into the word after the last. */
    method StoreTabBe(v: Word)
      requires tab != stringTable && tab.Length == 4 * tabSize
      requires tabLen + 1 <= tabSize && Thrifty(tabLen + 1, tabSize, moved)
      requires StringsValid()
      modifies this`tabLen, tab
      ensures Valid()
      ensures Structure() == old(Structure()) + Be32(v)
    {
      hide Be32, BeAt;
      StoreBe(tab, 4 * tabLen, v);
      assert tab[..4 * tabLen + 4] == tab[..4 * tabLen] + tab[4 * tabLen..4 * tabLen + 4];
      tabLen := tabLen + 1;
    }

    /** fdt_put_data: the data is zero padded to a word boundary. */
    method FdtPutData(data: seq<Byte>)
      requires Valid()
      modifies this`tab, this`tabSize, this`moved, this`tabLen, tab
      ensures Valid() && (tab == old(tab) || fresh(tab))
      ensures Value() == PutData(old(Value()), data)
    {
      hide Thrifty;
      var len1 := (|data| + 3) / 4;
      AllocLen(tabLen + len1);
      FillTab(data, len1);
    }

    method FillTab(data: seq<Byte>, len1: nat)
      requires tab != stringTable && tab.Length == 4 * tabSize
      requires tabLen + len1 <= tabSize && Thrifty(tabLen + len1, tabSize, moved)
      requires StringsValid() && len1 == (|data| + 3) / 4
      modifies this`tabLen, tab
      ensures Valid()
      ensures Structure() == old(Structure()) + Padded(data)
    {
      hide Thrifty, Padding, Table, Distinct;
      var at, end := 4 * tabLen, 4 * tabLen + |data|;
      var pad := (0 - |data|) % 4;
      PadOfWords(|data|);
      CopyBytes(tab, at, data);
      assert tab[at..end] == data;
      label Copied:
      ClearBytes(tab, end, pad);
      assert tab[at..end] == old@Copied(tab[..end])[at..] == data;
      assert tab[..at] == old@Copied(tab[..end])[..at] == old@Copied(tab[..at]);
      assert tab[..end + pad] == tab[..at] + tab[at..end] + tab[end..end + pad];
      tabLen := tabLen + len1;
    }

    /** fdt_begin_node */
    method FdtBeginNode(name: CString)
      requires Valid()
      modifies this`tab, this`tabSize, this`moved, this`tabLen, this`openNodeCount, tab
      ensures Valid() && (tab == old(tab) || fresh(tab))
      ensures Value() == BeginNode(old(Value()), name)
    {
      hide Put32, PutData, Thrifty, Table, Distinct;
      FdtPut32(FDT_BEGIN_NODE);
      FdtPutData(name + [0]);
      openNodeCount := openNodeCount + 1;
    }

    /** fdt_end_node */
    method FdtEndNode()
      requires Valid()
      modifies this`tab, this`tabSize, this`moved, this`tabLen, this`openNodeCount, tab
      ensures Valid() && (tab == old(tab) || fresh(tab))
      ensures Value() == EndNode(old(Value()))
    {
      hide Put32, Thrifty, Table, Distinct;
      FdtPut32(FDT_END_NODE);
      openNodeCount := openNodeCount - 1;
    }

    /** fdt_get_string_offset: the scan goes from string to string, and a name that it does
        not find is added at the end. */
    method FdtGetStringOffset(name: CString) returns (pos: nat)
      requires Valid()
      modifies this`stringTable, this`stringTableLen, this`stringTableSize, this`stringsMoved, this`names, stringTable
      ensures Valid() && (stringTable == old(stringTable) || fresh(stringTable))
      ensures names == Intern(old(names), name) && pos == OffsetOf(names, name)
      ensures Structure() == old(Structure())
    {
      hide Thrifty, Table, Distinct, IndexOf;
      pos := 0;
      ghost var k := 0;
      StartOfTable(names);
      while pos < stringTableLen
        invariant k <= |names| && pos == Start(names, k) && name !in names[..k]
        decreases stringTableLen - pos
        modifies {}
      {
        StringHere(k);
        var length := |CStringAt(stringTable[..], pos)|;
        if CStringAt(stringTable[..], pos) == name {
          FirstIndex(names, name, k);
          return;
        }
        assert names[..k + 1] == names[..k] + [names[k]];
        pos := pos + length + 1;
        k := k + 1;
      }
      if k < |names| {
        ReadsString(names, k, []);
      }
      assert names[..k] == names;
      pos := AddString(name);
    }

    /** What the scan finds at the start of string k. */
    lemma StringHere(k: nat)
      requires StringsValid() && k <= |names| && Start(names, k) < stringTableLen
      ensures k < |names| && Start(names, k) <= stringTable.Length
      ensures CStringAt(stringTable[..], Start(names, k)) == names[k]
      ensures Start(names, k + 1) == Start(names, k) + |names[k]| + 1 <= stringTableLen
    {
      hide Thrifty, Table, Distinct;
      StartOfTable(names);
      var rest := stringTable[stringTableLen..];
      assert stringTable[..] == stringTable[..stringTableLen] + rest;
      ReadsString(names, k, rest);
      SplitAt(names, k);
    }

    method AddString(name: CString) returns (pos: nat)
      requires Valid() && name !in names
      modifies this`stringTable, this`stringTableLen, this`stringTableSize, this`stringsMoved, this`names, stringTable
      ensures Valid() && (stringTable == old(stringTable) || fresh(stringTable))
      ensures names == old(names) + [name] && pos == OffsetOf(names, name)
      ensures Structure() == old(Structure())
    {
      hide Thrifty, Table, IndexOf;
      var nameSize := |name| + 1;
      var newLen := stringTableLen + nameSize;
      GrowthStaysThrifty(stringTableLen, stringTableSize, stringsMoved, newLen);
      if newLen > stringTableSize {
        var newSize := MaxInt(newLen, stringTableSize * 3 / 2);
        var larger := Realloc(stringTable, newSize);
        assert larger[..stringTableLen] == larger[..stringTable.Length][..stringTableLen];
        stringsMoved := stringsMoved + stringTableSize;
        stringTable := larger;
        stringTableSize := newSize;
      }
      pos := stringTableLen;
      StoreString(name, newLen);
      StringAdded(old(names), name);
    }

    /** memcpy of a new string, with its NUL, to the end of the table. */
    method StoreString(name: CString, newLen: nat)
      requires tab != stringTable && stringTable.Length == stringTableSize
      requires newLen == stringTableLen + |name| + 1 <= stringTableSize && Thrifty(newLen, stringTableSize, stringsMoved)
      requires stringTable[..stringTableLen] == Table(names) && Distinct(names) && name !in names
      modifies this`stringTableLen, this`names, stringTable
      ensures StringsValid() && names == old(names) + [name]
      ensures stringTableLen == newLen
    {
      hide Thrifty, Table;
      var pos := stringTableLen;
      CopyBytes(stringTable, pos, name + [0]);
      assert stringTable[..newLen] == stringTable[..pos] + stringTable[pos..newLen];
      stringTableLen := newLen;
      StringAdded(names, name);
      names := names + [name];
    }

    /** The three words before the value of a property, common to fdt_prop and
        fdt_prop_tab_u32. */
    method FdtPropHead(name: CString, len: nat)
      requires Valid()
      modifies this, tab, stringTable
      ensures Valid() && (tab == old(tab) || fresh(tab)) && (stringTable == old(stringTable) || fresh(stringTable))
      ensures Value() == PropHead(old(Value()), name, len)
    {
      hide Be32, Thrifty, Table, Distinct, OffsetOf, Intern;
      FdtPut32(FDT_PROP);
      FdtPut32(ToWord(len));
      var offset := FdtGetStringOffset(name);
      FdtPut32(ToWord(offset));
    }

    /** fdt_prop */
    method FdtProp(name: CString, data: seq<Byte>)
      requires Valid()
      modifies this, tab, stringTable
      ensures Valid() && (tab == old(tab) || fresh(tab)) && (stringTable == old(stringTable) || fresh(stringTable))
      ensures Value() == Prop(old(Value()), name, data)
    {
      hide Thrifty, Table, Distinct, PropHead, PutData;
      FdtPropHead(name, |data|);
      FdtPutData(data);
    }

    /** fdt_prop_tab_u32 */
    method FdtPropTabU32(name: CString, words: seq<Word>)
      requires Valid()
      modifies this, tab, stringTable
      ensures Valid() && (tab == old(tab) || fresh(tab)) && (stringTable == old(stringTable) || fresh(stringTable))
      ensures Value() == Prop(old(Value()), name, BeTable(words))
    {
      hide Be32, BeTable, Thrifty, Table, Distinct, PropHead, Padded;
      FdtPropHead(name, |words| * 4);
      ghost var before := Value();
      NoWords();
      for i := 0 to |words|
        invariant Valid() && (tab == old(tab) || fresh(tab)) && (stringTable == old(stringTable) || fresh(stringTable))
        invariant Value() == before.(structure := before.structure + BeTable(words[..i]))
      {
        OneMoreWord(words, i);
        FdtPut32(words[i]);
      }
      assert words[..|words|] == words;
      WordsNeedNoPadding(words);
    }

    /** fdt_prop_str */
    method FdtPropStr(name: CString, str: CString)
      requires Valid()
      modifies this, tab, stringTable
      ensures Valid() && (tab == old(tab) || fresh(tab)) && (stringTable == old(stringTable) || fresh(stringTable))
      ensures Value() == Prop(old(Value()), name, Table([str]))
    {
      OneString(str);
      FdtProp(name, str + [0]);
    }

    /** fdt_prop_tab_str: a first loop measures the strings, a second one copies them. */
    method FdtPropTabStr(name: CString, strings: seq<CString>)
      requires Valid()
      modifies this, tab, stringTable
      ensures Valid() && (tab == old(tab) || fresh(tab)) && (stringTable == old(stringTable) || fresh(stringTable))
      ensures Value() == Prop(old(Value()), name, Table(strings))
    {
      hide Thrifty, Table, Distinct, Prop;
      var data := JoinStrings(strings);
      FdtProp(name, data[..]);
    }

    method JoinStrings(strings: seq<CString>) returns (data: array<Byte>)
      ensures fresh(data) && data[..] == Table(strings)
    {
      hide Table;
      var size := 0;
      StartOfTable(strings);
      for i := 0 to |strings|
        invariant size == Start(strings, i)
      {
        SplitAt(strings, i);
        size := size + |strings[i]| + 1;
      }
      data := new Byte[size];
      size := 0;
      assert strings[..0] == [];
      for i := 0 to |strings|
        invariant fresh(data) && size == Start(strings, i) <= data.Length && data[..size] == Table(strings[..i])
      {
        SplitAt(strings, i);
        StartBelow(strings, i + 1);
        CopyBytes(data, size, strings[i] + [0]);
        assert data[..size + |strings[i]| + 1] == data[..size] + data[size..size + |strings[i]| + 1];
        assert strings[..i + 1] == strings[..i] + [strings[i]];
        TableOfSum(strings[..i], [strings[i]]);
        OneString(strings[i]);
        size := size + |strings[i]| + 1;
      }
      assert strings[..|strings|] == strings;
    }

    /** fdt_output: the end token goes into the structure block, and the blob into dst, whose
        rest stays as it was. */
    method FdtOutput(dst: array<Byte>) returns (size: nat)
      requires Valid() && dst != tab && dst != stringTable
      requires TotalSize(|Structure()| + 4, |Table(names)|) <= dst.Length
      modifies this, tab, dst
      ensures Valid() && (tab == old(tab) || fresh(tab)) && stringTable == old(stringTable)
      ensures Value() == Put32(old(Value()), FDT_END)
      ensures size == TotalSize(|Structure()|, |Table(names)|)
      ensures dst[..size] == Output(old(Value()))
      ensures dst[size..] == old(dst[size..])
    {
      hide Thrifty, Table, Distinct, Be32, Blob;
      FdtPut32(FDT_END);
      var structSize, stringsSize := tabLen * 4, stringTableLen;
      size := LayOut(dst, tab[..structSize], stringTable[..stringsSize]);
    }
  }

  lemma NoWords()
    ensures BeTable([]) == []
  {
  }

  lemma OneMoreWord(words: seq<Word>, i: nat)
    requires i < |words|
    ensures BeTable(words[..i + 1]) == BeTable(words[..i]) + Be32(words[i])
  {
    hide Be32;
    assert words[..i + 1][..i] == words[..i];
  }

  lemma WordsNeedNoPadding(words: seq<Word>)
    ensures Padded(BeTable(words)) == BeTable(words)
  {
    hide Be32;
  }

  lemma StartBelow(names: seq<CString>, i: nat)
    requires i <= |names|
    ensures Start(names, i) <= |Table(names)|
  {
    assert names == names[..i] + names[i..];
    TableOfSum(names[..i], names[i..]);
  }

  // ---------------------------------------------------------------- the parts of the blob

  /** The header as ten big-endian words. */
  function HeaderOf(s: seq<Byte>): (fields: seq<Word>)
    requires |s| >= 40
    ensures |fields| == 10
  {
    seq(10, k requires 0 <= k < 10 => BeAt(s, 4 * k))
  }

  lemma StartOfBody(dst: array<Byte>)
    requires dst.Length >= 40
    ensures dst[40..40] == []
  {
  }

  /** Ten words make up the first forty bytes. */
  lemma HeaderBytes(s: seq<Byte>)
    requires |s| >= 40
    ensures s[..40] == Header(HeaderOf(s))
  {
    hide Be32, BeAt;
    FirstWords(s, HeaderOf(s), 10);
  }

  lemma {:induction false} FirstWords(s: seq<Byte>, fields: seq<Word>, n: nat)
    requires 4 * n <= |s| && |fields| == n
    requires forall k :: 0 <= k < n ==> fields[k] == BeAt(s, 4 * k)
    ensures s[..4 * n] == BeTable(fields)
  {
    hide Be32, BeAt;
    if n == 0 {
    } else {
      FirstWords(s, fields[..n - 1], n - 1);
      WordOfBe(s, 4 * (n - 1));
      assert s[..4 * n] == s[..4 * (n - 1)] + s[4 * (n - 1)..4 * n];
    }
  }

  /** A header field is set; neither the body up to pos nor what follows it changes. */
  method SetField(dst: array<Byte>, k: nat, v: Word, ghost pos: nat)
    requires k < 10 && 40 <= pos <= dst.Length
    modifies dst
    ensures HeaderOf(dst[..]) == old(HeaderOf(dst[..]))[k := v]
    ensures dst[40..pos] == old(dst[40..pos]) && dst[pos..] == old(dst[pos..])
  {
    hide Be32, BeAt;
    ghost var was := dst[..];
    StoreBe(dst, 4 * k, v);
    forall j | 0 <= j < 10 && j != k
      ensures BeAt(dst[..], 4 * j) == BeAt(was, 4 * j)
    {
      SameWordAt(dst[..], was, 4 * j);
    }
  }

  lemma SameWordAt(s: seq<Byte>, t: seq<Byte>, o: nat)
    requires o + 4 <= |s| && o + 4 <= |t| && s[o] == t[o] && s[o + 1] == t[o + 1] && s[o + 2] == t[o + 2] && s[o + 3] == t[o + 3]
    ensures BeAt(s, o) == BeAt(t, o)
  {
  }

  /** memcpy behind what is laid out so far. */
  method Append(dst: array<Byte>, pos: nat, data: seq<Byte>) returns (end: nat)
    requires 40 <= pos && pos + |data| <= dst.Length
    modifies dst
    ensures end == pos + |data|
    ensures HeaderOf(dst[..]) == old(HeaderOf(dst[..]))
    ensures dst[40..end] == old(dst[40..pos]) + data && dst[end..] == old(dst[end..])
  {
    hide BeAt;
    ghost var was := dst[..];
    CopyBytes(dst, pos, data);
    end := pos + |data|;
    SameHeader(dst[..], was);
    assert dst[40..pos] == dst[..pos][40..] == old(dst[40..pos]);
    assert dst[40..end] == dst[40..pos] + dst[pos..end];
  }

  lemma SameHeader(s: seq<Byte>, t: seq<Byte>)
    requires |s| >= 40 && |t| >= 40 && forall i :: 0 <= i < 40 ==> s[i] == t[i]
    ensures HeaderOf(s) == HeaderOf(t)
  {
  }

  /** The loop that fills up with zeros to a multiple of eight. */
  method AlignEight(dst: array<Byte>, pos: nat) returns (end: nat)
    requires 40 <= pos && pos + Padding(pos, 8) <= dst.Length
    modifies dst
    ensures end == pos + Padding(pos, 8)
    ensures HeaderOf(dst[..]) == old(HeaderOf(dst[..]))
    ensures dst[40..end] == old(dst[40..pos]) + Zeros(Padding(pos, 8)) && dst[end..] == old(dst[end..])
  {
    hide BeAt;
    ghost var was := dst[..];
    end := pos;
    while end % 8 != 0
      invariant pos <= end <= pos + Padding(pos, 8)
      invariant forall i :: pos <= i < end ==> dst[i] == 0
      invariant forall i :: 0 <= i < dst.Length && !(pos <= i < end) ==> dst[i] == was[i]
      decreases pos + Padding(pos, 8) - end
    {
      dst[end] := 0;
      end := end + 1;
    }
    SameHeader(dst[..], was);
  }

  /** The blob from its structure block and its strings, in the order in which fdt_output
      writes it. */
  method LayOut(dst: array<Byte>, structure: seq<Byte>, strings: seq<Byte>) returns (size: nat)
    requires TotalSize(|structure|, |strings|) <= dst.Length
    modifies dst
    ensures size == TotalSize(|structure|, |strings|)
    ensures dst[..size] == Blob(structure, strings)
    ensures dst[size..] == old(dst[size..])
  {
    hide HeaderOf, Header, BeAt, Padding, HeaderFields, Zeros;
    ghost var was := dst[..];
    SetFixedFields(dst, |structure|, |strings|);
    SameTail(dst[..], was, 40, OffRsvmap(|structure|));
    var pos := LayStructure(dst, structure);
    SameTail(dst[..], was, pos, TotalSize(|structure|, |strings|));
    size := LayStrings(dst, pos, strings);
    HeaderBytes(dst[..]);
    AllFields(|structure|, |strings|, HeaderOf(dst[..]));
    assert dst[..size] == dst[..40] + dst[40..size];
  }

  lemma SameTail(s: seq<Byte>, t: seq<Byte>, a: nat, b: nat)
    requires a <= b <= |s| == |t| && s[a..] == t[a..]
    ensures s[b..] == t[b..]
  {
    assert s[b..] == s[a..][b - a..] && t[b..] == t[a..][b - a..];
  }

  /** The structure block and the padding behind it. */
  method LayStructure(dst: array<Byte>, structure: seq<Byte>) returns (pos: nat)
    requires OffRsvmap(|structure|) <= dst.Length
    modifies dst
    ensures pos == OffRsvmap(|structure|)
    ensures HeaderOf(dst[..]) == old(HeaderOf(dst[..]))[2 := 40][4 := ToWord(pos)]
    ensures dst[40..pos] == structure + Zeros(Padding(40 + |structure|, 8))
    ensures dst[pos..] == old(dst[pos..])
  {
    hide HeaderOf, BeAt, Padding, Zeros;
    StartOfBody(dst);
    ghost var was := dst[..];
    pos := 40;
    SetField(dst, 2, ToWord(pos), pos);
    pos := Append(dst, pos, structure);
    SameTail(dst[..], was, pos, pos + Padding(pos, 8));
    pos := AlignEight(dst, pos);
    SetField(dst, 4, ToWord(pos), pos);
  }

  /** The reservation block, the strings block and the padding behind it. */
  method LayStrings(dst: array<Byte>, start: nat, strings: seq<Byte>) returns (pos: nat)
    requires 40 <= start && start + 16 + |strings| + Padding(start + 16 + |strings|, 8) <= dst.Length
    modifies dst
    ensures pos == start + 16 + |strings| + Padding(start + 16 + |strings|, 8)
    ensures HeaderOf(dst[..]) == old(HeaderOf(dst[..]))[3 := ToWord(start + 16)][1 := ToWord(pos)]
    ensures dst[40..pos] == old(dst[40..start]) + Zeros(16) + strings + Zeros(Padding(start + 16 + |strings|, 8))
    ensures dst[pos..] == old(dst[pos..])
  {
    hide HeaderOf, BeAt, Padding, Zeros;
    ghost var was := dst[..];
    pos := Append(dst, start, Zeros(16));
    SetField(dst, 3, ToWord(pos), pos);
    SameTail(dst[..], was, pos, pos + |strings|);
    pos := Append(dst, pos, strings);
    SameTail(dst[..], was, pos, pos + Padding(pos, 8));
    pos := AlignEight(dst, pos);
    SetField(dst, 1, ToWord(pos), pos);
  }

  /** The fields that do not depend on where the blocks come to lie. */
  method SetFixedFields(dst: array<Byte>, structSize: nat, stringsSize: nat)
    requires dst.Length >= 40
    modifies dst
    ensures var fields := HeaderOf(dst[..]);
            && fields[0] == FDT_MAGIC && fields[5] == FDT_VERSION && fields[6] == 16 && fields[7] == 0
            && fields[8] == ToWord(stringsSize) && fields[9] == ToWord(structSize)
    ensures dst[40..] == old(dst[40..])
  {
    hide HeaderOf;
    SetField(dst, 0, FDT_MAGIC, 40);
    SetField(dst, 5, FDT_VERSION, 40);
    SetField(dst, 6, 16, 40);
    SetField(dst, 7, 0, 40);
    SetField(dst, 8, ToWord(stringsSize), 40);
    SetField(dst, 9, ToWord(structSize), 40);
  }

  lemma AllFields(structSize: nat, stringsSize: nat, fields: seq<Word>)
    requires |fields| == 10 && fields[0] == FDT_MAGIC && fields[5] == FDT_VERSION && fields[6] == 16 && fields[7] == 0
    requires fields[8] == ToWord(stringsSize) && fields[9] == ToWord(structSize) && fields[2] == 40
    requires fields[1] == ToWord(TotalSize(structSize, stringsSize))
    requires fields[3] == ToWord(OffStrings(structSize)) && fields[4] == ToWord(OffRsvmap(structSize))
    ensures fields == HeaderFields(structSize, stringsSize)
  {
  }

  lemma StartOfTable(names: seq<CString>)
    ensures Start(names, 0) == 0 && Start(names, |names|) == |Table(names)|
  {
    assert names[..0] == [] && names[..|names|] == names;
  }

  lemma StringAdded(names: seq<CString>, name: CString)
    requires name !in names
    ensures Table(names + [name]) == Table(names) + (name + [0])
    ensures name in names + [name] && OffsetOf(names + [name], name) == |Table(names)|
  {
    TableOfSum(names, [name]);
    OneString(name);
    assert (names + [name])[..|names|] == names;
    FirstIndex(names + [name], name, |names|);
  }

  /** -len & 3 is the padding to a word boundary, and (len + 3) / 4 words hold it all. */
  lemma PadOfWords(len: nat)
    ensures (0 - len) % 4 == Padding(len, 4) && len + Padding(len, 4) == 4 * ((len + 3) / 4)
  {
  }
}
