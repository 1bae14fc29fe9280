/** The layout of a finished blob against sections 5.2 and 5.6 of the Devicetree
    Specification (v0.4): where the blocks lie, and that the header says so. */
module FdtLayout {
  import opened Words
  import opened Bytes
  import opened FdtFormat
  import opened FdtWriter

  /** Blocks one after the other, none overlapping, each aligned, with padding below eight
      bytes, and a total that is a multiple of eight. */
  lemma BlocksInOrder(structSize: nat, stringsSize: nat)
    ensures 40 + structSize <= OffRsvmap(structSize) < 40 + structSize + 8
    ensures OffRsvmap(structSize) + 16 == OffStrings(structSize)
    ensures OffStrings(structSize) + stringsSize <= TotalSize(structSize, stringsSize)
    ensures TotalSize(structSize, stringsSize) < OffStrings(structSize) + stringsSize + 8
    ensures OffRsvmap(structSize) % 8 == 0 && TotalSize(structSize, stringsSize) % 8 == 0
  {
    PaddingFills(40 + structSize, 8, 0);
    PaddingFills(OffStrings(structSize) + stringsSize, 8, 0);
  }

  /** The ten header fields are read back. */
  lemma HeaderReadsBack(fields: seq<Word>, rest: seq<Byte>)
    requires |fields| == 10
    ensures HeaderOf(Header(fields) + rest) == fields
  {
    hide BeAt, BeTable;
    var s := Header(fields) + rest;
    forall k | 0 <= k < 10
      ensures HeaderOf(s)[k] == fields[k]
    {
      TableWord(fields, rest, k);
    }
  }

  lemma {:induction false} TableWord(fields: seq<Word>, rest: seq<Byte>, k: nat)
    requires k < |fields|
    ensures BeAt(BeTable(fields) + rest, 4 * k) == fields[k]
  {
    hide BeAt, Be32;
    var n := |fields| - 1;
    var last := Be32(fields[n]);
    assert BeTable(fields) + rest == BeTable(fields[..n]) + (last + rest);
    if k < n {
      TableWord(fields[..n], last + rest, k);
    } else {
      BeOfWord(fields[n], rest);
      BeLater(BeTable(fields[..n]), last + rest);
    }
  }

  lemma BeLater(before: seq<Byte>, s: seq<Byte>)
    requires |s| >= 4
    ensures BeAt(before + s, |before|) == BeAt(s, 0)
  {
  }

  predicate LiesAt(blob: seq<Byte>, o: int, part: seq<Byte>) {
    0 <= o && o + |part| <= |blob| && blob[o..o + |part|] == part
  }

  /** The header of a blob tells the truth about its blocks, and the reservation block holds
      its final entry only. */
  predicate HeaderDescribes(fields: seq<int>, blob: seq<Byte>, structure: seq<Byte>, strings: seq<Byte>) {
    && |fields| == 10
    && fields[0] == 0xD00D_FEED && fields[1] == |blob| && fields[5] == 17 && fields[6] == 16 && fields[7] == 0
    && fields[2] == 40 && fields[9] == |structure| && fields[2] + fields[9] <= fields[4] && fields[4] % 8 == 0
    && fields[4] + 16 == fields[3] && fields[8] == |strings| && fields[3] + fields[8] <= |blob|
    && LiesAt(blob, fields[2], structure) && LiesAt(blob, fields[4], Zeros(16)) && LiesAt(blob, fields[3], strings)
  }

  /** Every block lies where the header says. */
  lemma HeaderAgrees(structure: seq<Byte>, strings: seq<Byte>)
    requires TotalSize(|structure|, |strings|) < 0x1_0000_0000
    ensures HeaderDescribes(HeaderOf(Blob(structure, strings)), Blob(structure, strings), structure, strings)
  {
    hide HeaderOf, Header, Padding, Zeros, TotalSize, Blob, LiesAt;
    FieldsFit(|structure|, |strings|);
    BlocksInOrder(|structure|, |strings|);
    BlobParts(structure, strings);
  }

  lemma FieldsFit(structSize: nat, stringsSize: nat)
    requires TotalSize(structSize, stringsSize) < 0x1_0000_0000
    ensures HeaderFields(structSize, stringsSize) ==
            [FDT_MAGIC, TotalSize(structSize, stringsSize), 40, OffStrings(structSize), OffRsvmap(structSize), FDT_VERSION,
             16, 0, stringsSize, structSize]
  {
    BlocksInOrder(structSize, stringsSize);
  }

  lemma BlobParts(structure: seq<Byte>, strings: seq<Byte>)
    ensures var blob := Blob(structure, strings);
            && HeaderOf(blob) == HeaderFields(|structure|, |strings|)
            && |blob| == TotalSize(|structure|, |strings|)
            && LiesAt(blob, 40, structure) && LiesAt(blob, OffRsvmap(|structure|), Zeros(16))
            && LiesAt(blob, OffStrings(|structure|), strings)
  {
    hide HeaderOf, Header, Padding, Zeros, HeaderFields;
    BlocksInOrder(|structure|, |strings|);
    var header := Header(HeaderFields(|structure|, |strings|));
    var pad, pad' := Zeros(Padding(40 + |structure|, 8)), Zeros(Padding(OffStrings(|structure|) + |strings|, 8));
    var blob := Blob(structure, strings);
    assert blob == header + (structure + pad + Zeros(16) + strings + pad');
    HeaderReadsBack(HeaderFields(|structure|, |strings|), structure + pad + Zeros(16) + strings + pad');
    Between(header, structure, pad + Zeros(16) + strings + pad');
    assert blob == header + structure + (pad + Zeros(16) + strings + pad');
    Between(header + structure + pad, Zeros(16), strings + pad');
    assert blob == header + structure + pad + Zeros(16) + (strings + pad');
    Between(header + structure + pad + Zeros(16), strings, pad');
  }

  lemma Between(before: seq<Byte>, s: seq<Byte>, after: seq<Byte>)
    ensures LiesAt(before + s + after, |before|, s)
  {
  }
}
