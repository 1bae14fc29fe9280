/** The strings block of a flattened device tree (fdt_get_string_offset in fdt.c): names
    with their terminating NUL one after the other, each stored once. */
module StringTable {
  import opened Words

  /** What a char pointer stands for: the bytes before the NUL. */
  type CString = s: seq<Byte> | 0 !in s witness []

  /** The C string that starts at an offset, or what is left if no NUL follows. */
  function CStringAt(bytes: seq<Byte>, o: nat): (s: CString)
    requires o <= |bytes|
    ensures |s| <= |bytes| - o && bytes[o..o + |s|] == s
    ensures |s| == |bytes| - o || bytes[o + |s|] == 0
    decreases |bytes| - o
  {
    if o == |bytes| || bytes[o] == 0 then [] else [bytes[o]] + CStringAt(bytes, o + 1)
  }

  /** A string and its NUL read back. */
  lemma {:induction false} CStringReadsBack(before: seq<Byte>, name: CString, after: seq<Byte>)
    ensures CStringAt(before + name + [0] + after, |before|) == name
    decreases |name|
  {
    var bytes := before + name + [0] + after;
    if name == [] {
      assert bytes[|before|] == 0;
    } else {
      CStringReadsBack(before + [name[0]], name[1..], after);
      assert before + [name[0]] + name[1..] == before + name;
      assert bytes[|before|] == name[0];
    }
  }

  function Table(names: seq<CString>): seq<Byte> {
    if names == [] then [] else names[0] + [0] + Table(names[1..])
  }

  lemma {:induction false} TableOfSum(a: seq<CString>, b: seq<CString>)
    ensures Table(a + b) == Table(a) + Table(b)
  {
    if a == [] {
      assert a + b == b;
    } else {
      assert (a + b)[0] == a[0] && (a + b)[1..] == a[1..] + b;
      TableOfSum(a[1..], b);
    }
  }

  predicate Distinct(names: seq<CString>) {
    forall i, j :: 0 <= i < j < |names| ==> names[i] != names[j]
  }

  /** Where string i starts. */
  function Start(names: seq<CString>, i: nat): nat
    requires i <= |names|
  {
    |Table(names[..i])|
  }

  /** The table split at string i. */
  lemma SplitAt(names: seq<CString>, i: nat)
    requires i < |names|
    ensures Table(names) == Table(names[..i]) + names[i] + [0] + Table(names[i + 1..])
    ensures Start(names, i + 1) == Start(names, i) + |names[i]| + 1 <= |Table(names)|
  {
    hide Table;
    assert names == names[..i] + ([names[i]] + names[i + 1..]);
    TableOfSum(names[..i], [names[i]] + names[i + 1..]);
    TableOfSum([names[i]], names[i + 1..]);
    OneString(names[i]);
    assert names[..i + 1] == names[..i] + [names[i]];
    TableOfSum(names[..i], [names[i]]);
  }

  lemma OneString(name: CString)
    ensures Table([name]) == name + [0]
  {
    assert [name][1..] == [];
  }

  /** At the start of string i that string is read, whatever follows the table. */
  lemma ReadsString(names: seq<CString>, i: nat, rest: seq<Byte>)
    requires i < |names|
    ensures Start(names, i) < |Table(names)|
    ensures CStringAt(Table(names) + rest, Start(names, i)) == names[i]
  {
    SplitAt(names, i);
    var before, after := Table(names[..i]), Table(names[i + 1..]);
    CStringReadsBack(before, names[i], after + rest);
    assert Table(names) + rest == before + names[i] + [0] + (after + rest);
  }

  /** The table after a request for a name. */
  function Intern(names: seq<CString>, name: CString): (r: seq<CString>)
    ensures name in r && names <= r
  {
    if name in names then names else names + [name]
  }

  function IndexOf(names: seq<CString>, name: CString): (i: nat)
    requires name in names
    ensures i < |names| && names[i] == name && name !in names[..i]
  {
    if names[0] == name then 0
    else
      assert name in names[1..];
      var i := IndexOf(names[1..], name);
      assert names[..i + 1] == [names[0]] + names[1..][..i];
      i + 1
  }

  /** The offset that a request returns. */
  function OffsetOf(names: seq<CString>, name: CString): nat
    requires name in names
  {
    Start(names, IndexOf(names, name))
  }

  // ---------------------------------------------------------------- what the table promises

  lemma InternKeepsDistinct(names: seq<CString>, name: CString)
    requires Distinct(names)
    ensures Distinct(Intern(names, name))
  {
  }

  /** The offset reads back as the name, in the table as it then is and in every later one. */
  lemma OffsetReadsBack(names: seq<CString>, later: seq<CString>, name: CString, rest: seq<Byte>)
    requires name in names && names <= later
    ensures OffsetOf(names, name) < |Table(later)|
    ensures CStringAt(Table(later) + rest, OffsetOf(names, name)) == name
  {
    var i := IndexOf(names, name);
    ReadsString(later, i, rest);
    assert later[..i] == names[..i];
  }

  lemma {:induction false} FirstIndex(names: seq<CString>, name: CString, i: nat)
    requires i < |names| && names[i] == name && name !in names[..i]
    ensures IndexOf(names, name) == i
  {
    if i == 0 {
    } else {
      assert names[..i][0] == names[0];
      assert names[1..][..i - 1] == names[..i][1..];
      FirstIndex(names[1..], name, i - 1);
    }
  }

  /** Later requests for any names leave the offset of a name as it is. */
  lemma OffsetStays(names: seq<CString>, later: seq<CString>, name: CString)
    requires name in names && names <= later
    ensures OffsetOf(later, name) == OffsetOf(names, name)
  {
    var i := IndexOf(names, name);
    assert later[i] == name && later[..i] == names[..i];
    FirstIndex(later, name, i);
  }

  /** Two names have the same offset exactly if they are equal. */
  lemma OffsetsTellNames(names: seq<CString>, a: CString, b: CString)
    requires a in names && b in names
    ensures OffsetOf(names, a) == OffsetOf(names, b) <==> a == b
  {
    OffsetReadsBack(names, names, a, []);
    OffsetReadsBack(names, names, b, []);
  }

  function InternAll(names: seq<CString>, requests: seq<CString>): (r: seq<CString>)
    ensures names <= r
    decreases |requests|
  {
    if requests == [] then names else InternAll(Intern(names, requests[0]), requests[1..])
  }

  /** Over any sequence of requests: the strings stay distinct, each request is in the table
      and its offset, then and at the end, reads back as the requested name. */
  lemma {:induction false} EveryRequestReadsBack(names: seq<CString>, requests: seq<CString>, k: nat)
    requires Distinct(names) && k < |requests|
    ensures Distinct(InternAll(names, requests))
    ensures var now := InternAll(names, requests[..k + 1]);
            var end := InternAll(names, requests);
            && requests[k] in now && requests[k] in end
            && OffsetOf(end, requests[k]) == OffsetOf(now, requests[k]) < |Table(end)|
            && CStringAt(Table(end), OffsetOf(now, requests[k])) == requests[k]
  {
    InternAllDistinct(names, requests);
    var now, end := InternAll(names, requests[..k + 1]), InternAll(names, requests);
    InternAllSplit(names, requests, k + 1);
    InternAllSplit(names, requests[..k + 1], k);
    assert requests[..k + 1][k..] == [requests[k]] && requests[..k + 1][..k] == requests[..k];
    assert now == Intern(InternAll(names, requests[..k]), requests[k]);
    assert requests[k] in end by {
      var i := IndexOf(now, requests[k]);
      assert end[i] == requests[k];
    }
    OffsetStays(now, end, requests[k]);
    OffsetReadsBack(now, end, requests[k], []);
    assert Table(end) + [] == Table(end);
  }

  lemma {:induction false} InternAllDistinct(names: seq<CString>, requests: seq<CString>)
    requires Distinct(names)
    ensures Distinct(InternAll(names, requests))
    decreases |requests|
  {
    if requests == [] {
    } else {
      InternKeepsDistinct(names, requests[0]);
      InternAllDistinct(Intern(names, requests[0]), requests[1..]);
    }
  }

  lemma {:induction false} InternAllSplit(names: seq<CString>, requests: seq<CString>, k: nat)
    requires k <= |requests|
    ensures InternAll(names, requests) == InternAll(InternAll(names, requests[..k]), requests[k..])
    ensures InternAll(names, requests[..k]) <= InternAll(names, requests)
    decreases |requests|
  {
    if k == 0 {
      assert requests[..k] == [] && requests[k..] == requests;
    } else {
      InternAllSplit(Intern(names, requests[0]), requests[1..], k - 1);
      assert requests[..k][1..] == requests[1..][..k - 1] && requests[1..][k - 1..] == requests[k..];
    }
  }
}
