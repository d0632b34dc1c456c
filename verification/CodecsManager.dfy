/**
 The codec matrix of the video tests: encoders and decoders of one MIME type are collected once, then
 the test function runs for every pair with exactly that pair enabled.
 */
module CodecsManager {
  import opened Bytes

  datatype Category = Encoder | Decoder | EncodingCapturer | OtherCategory

  /** A 32-bit flags word; the enabled flag is bit 31, so it is on exactly in the upper half. */
  type Flags = x: int | 0 <= x < 0x1_0000_0000

  const IS_ENABLED: Flags := 0x8000_0000

  predicate IsOn(flags: Flags)
  {
    flags >= IS_ENABLED
  }

  /** `flags | MS_FILTER_IS_ENABLED` or `flags & ~MS_FILTER_IS_ENABLED`: every other bit is kept. */
  function WithBit(flags: Flags, on: bool): Flags
  {
    if on == IsOn(flags) then flags else if on then flags + IS_ENABLED else flags - IS_ENABLED
  }

  /** All bits but the enabled one. */
  function OtherBits(flags: Flags): int
  {
    if flags >= 0x8000_0000 then flags - 0x8000_0000 else flags
  }

  /** Setting or clearing the enabled bit leaves every other bit alone. */
  lemma OtherBitsKept(flags: Flags, on: bool)
    ensures OtherBits(flags) == flags % 0x8000_0000 && OtherBits(WithBit(flags, on)) == OtherBits(flags)
    ensures WithBit(flags, on) % 0x8000_0000 == flags % 0x8000_0000
    ensures WithBit(flags, on) / 0x8000_0000 == if on then 1 else 0
  {
  }

  lemma BitFacts(flags: Flags, a: bool, b: bool)
    ensures WithBit(WithBit(flags, a), b) == WithBit(flags, b)
    ensures IsOn(WithBit(flags, a)) <==> a
    ensures IsOn(flags) ==> WithBit(flags, true) == flags
  {
  }

  /** A filter descriptor; only its flags change. */
  class FilterDesc {
    const category: Category
    const encFmt: Option<string>
    var flags: Flags

    constructor (category: Category, encFmt: Option<string>, flags: Flags)
      ensures this.category == category && this.encFmt == encFmt && this.flags == flags
    {
      this.category := category;
      this.encFmt := encFmt;
      this.flags := flags;
    }
  }

  /** Comparison that ignores ASCII case. */
  predicate SameFormat(a: string, b: string)
  {
    |a| == |b| && forall i :: 0 <= i < |a| ==> Lower(a[i]) == Lower(b[i])
  }

  function Lower(c: char): char
  {
    if 'A' <= c <= 'Z' then (c as int + 32) as char else c
  }

  /** Two characters are the same exactly when they are equal or one is the capital of the other. */
  lemma CaseOnly(a: char, b: char)
    ensures Lower(a) == Lower(b) <==>
            || a == b
            || ('A' <= a <= 'Z' && b as int == a as int + 32)
            || ('A' <= b <= 'Z' && a as int == b as int + 32)
  {
  }

  /** A name in lower case. */
  function LowerCase(s: string): string
  {
    if s == "" then "" else [Lower(s[0])] + LowerCase(s[1..])
  }

  lemma {:induction false} LowerCaseAt(s: string)
    ensures |LowerCase(s)| == |s| && forall i :: 0 <= i < |s| ==> LowerCase(s)[i] == Lower(s[i])
  {
    if s != "" {
      LowerCaseAt(s[1..]);
      assert forall i :: 1 <= i < |s| ==> s[i] == s[1..][i - 1] && LowerCase(s)[i] == LowerCase(s[1..])[i - 1];
    }
  }

  /** A format matches its lower-case form, so "h264" collects what is declared as "H264". */
  lemma LowerCaseMatches(s: string)
    ensures SameFormat(s, LowerCase(s)) && SameFormat(LowerCase(s), s)
  {
    LowerCaseAt(s);
    forall i | 0 <= i < |s| ensures Lower(LowerCase(s)[i]) == Lower(s[i]) { CaseOnly(s[i], Lower(s[i])); }
  }

  /** Two formats match if and only if they are one name in lower case. */
  lemma SameFormatIff(a: string, b: string)
    ensures SameFormat(a, b) <==> LowerCase(a) == LowerCase(b)
  {
    LowerCaseAt(a);
    LowerCaseAt(b);
    if LowerCase(a) == LowerCase(b) {
      forall i | 0 <= i < |a| ensures Lower(a[i]) == Lower(b[i]) { assert LowerCase(a)[i] == LowerCase(b)[i]; }
    }
  }

  lemma CapitalsMatch()
    ensures SameFormat("H264", "h264") && LowerCase("H264") == "h264" && !SameFormat("H264", "H263")
  {
    var s := "H264";
    assert s[1..] == "264" && s[1..][1..] == "64" && s[1..][1..][1..] == "4" && s[1..][1..][1..][1..] == "";
    assert s[3] != "H263"[3];
  }

  ghost predicate NoDuplicates(ds: seq<FilterDesc>)
  {
    forall i, j :: 0 <= i < j < |ds| ==> ds[i] != ds[j]
  }

  ghost predicate Wanted(d: FilterDesc, mime: string, category: Category)
    reads d
  {
    d.encFmt.Some? && SameFormat(d.encFmt.value, mime) && IsOn(d.flags) && d.category == category
  }

  /** The wanted descriptors, in list order. */
  ghost function Select(ds: seq<FilterDesc>, mime: string, category: Category): (r: seq<FilterDesc>)
    reads ds
    ensures forall d :: d in r ==> d in ds && Wanted(d, mime, category)
    ensures forall d :: d in ds && Wanted(d, mime, category) ==> d in r
    ensures NoDuplicates(ds) ==> NoDuplicates(r)
  {
    if ds == [] then []
    else
      var front, last := ds[..|ds| - 1], ds[|ds| - 1];
      assert ds == front + [last];
      assert NoDuplicates(ds) ==> last !in front;
      Select(front, mime, category) + if Wanted(last, mime, category) then [last] else []
  }

  lemma SelectNext(ds: seq<FilterDesc>, i: nat, mime: string, category: Category)
    requires i < |ds|
    ensures Select(ds[..i + 1], mime, category)
         == Select(ds[..i], mime, category) + if Wanted(ds[i], mime, category) then [ds[i]] else []
  {
    assert ds[..i + 1][..i] == ds[..i];
  }

  /** Which collected codecs the test function finds enabled. */
  datatype Snapshot = Snapshot(enabled: set<FilterDesc>)

  /** One snapshot per pair, encoders in the outer loop. */
  ghost function Row(e: FilterDesc, decoders: seq<FilterDesc>): seq<Snapshot>
  {
    if decoders == [] then []
    else Row(e, decoders[..|decoders| - 1]) + [Snapshot({e, decoders[|decoders| - 1]})]
  }

  ghost function Matrix(encoders: seq<FilterDesc>, decoders: seq<FilterDesc>): seq<Snapshot>
  {
    if encoders == [] then []
    else Matrix(encoders[..|encoders| - 1], decoders) + Row(encoders[|encoders| - 1], decoders)
  }

  class CodecsManager {
    const encoders: seq<FilterDesc>
    const decoders: seq<FilterDesc>

    /** The two lists hold different descriptors, each of its own category. */
    ghost predicate Valid()
    {
      && NoDuplicates(encoders) && NoDuplicates(decoders)
      && (forall d :: d in encoders ==> d.category == Encoder)
      && (forall d :: d in decoders ==> d.category == Decoder)
    }

    constructor (descList: seq<FilterDesc>, mime: string)
      requires NoDuplicates(descList)
      ensures Valid()
      ensures encoders == Select(descList, mime, Encoder) && decoders == Select(descList, mime, Decoder)
      ensures forall d :: d in encoders || d in decoders ==> IsOn(d.flags)
    {
      var enc: seq<FilterDesc>, dec: seq<FilterDesc> := [], [];
      for i := 0 to |descList|
        invariant enc == Select(descList[..i], mime, Encoder)
        invariant dec == Select(descList[..i], mime, Decoder)
      {
        var desc := descList[i];
        SelectNext(descList, i, mime, Encoder);
        SelectNext(descList, i, mime, Decoder);
        if desc.encFmt.Some? && SameFormat(desc.encFmt.value, mime) && IsOn(desc.flags) {
          if desc.category == Encoder && desc.category != EncodingCapturer {
            enc := enc + [desc];
          } else if desc.category == Decoder {
            dec := dec + [desc];
          }
        }
      }
      assert descList[..|descList|] == descList;
      encoders := enc;
      decoders := dec;
    }

    method EnableAllCodecs(category: Category, enable: bool)
      requires Valid()
      modifies if category == Encoder then encoders else if category == Decoder then decoders else []
      ensures category == Encoder ==> forall d :: d in encoders ==> d.flags == WithBit(old(d.flags), enable)
      ensures category == Decoder ==> forall d :: d in decoders ==> d.flags == WithBit(old(d.flags), enable)
      ensures forall d :: d in encoders || d in decoders ==> OtherBits(d.flags) == OtherBits(old(d.flags))
    {
      forall flags: Flags { OtherBitsKept(flags, enable); }
      var list := [];
      if category == Encoder {
        list := encoders;
      } else if category == Decoder {
        list := decoders;
      } else {
        return;
      }
      for i := 0 to |list|
        invariant forall k :: 0 <= k < i ==> list[k].flags == WithBit(old(list[k].flags), enable)
        invariant forall k :: i <= k < |list| ==> list[k].flags == old(list[k].flags)
      {
        var desc := list[i];
        if enable {
          desc.flags := WithBit(desc.flags, true);
        } else {
          desc.flags := WithBit(desc.flags, false);
        }
      }
    }

    /** The collected codecs of the given category; none for any other category. */
    ghost function ListOf(category: Category): seq<FilterDesc>
    {
      if category == Encoder then encoders else if category == Decoder then decoders else []
    }

    /** Within its category, `desc` is left enabled alone, whether it was collected or not. A descriptor of
        another category is left alone. */
    method EnableOnlyOneCodec(desc: FilterDesc)
      requires Valid()
      modifies ListOf(desc.category), desc
      ensures forall d :: d in ListOf(desc.category) ==> d.flags == WithBit(old(d.flags), d == desc)
      ensures desc.flags == if desc.category == Encoder || desc.category == Decoder then WithBit(old(desc.flags), true)
                            else old(desc.flags)
      ensures OtherBits(desc.flags) == OtherBits(old(desc.flags))
      ensures forall d :: d in encoders || d in decoders ==> OtherBits(d.flags) == OtherBits(old(d.flags))
    {
      OtherBitsKept(desc.flags, true);
      if desc.category == Encoder || desc.category == Decoder {
        EnableAllCodecs(desc.category, false);
        BitFacts(old(desc.flags), false, true);
        desc.flags := WithBit(desc.flags, true);
      }
    }

    /** Every collected descriptor has the given other bits. */
    ghost predicate OthersAre(other: map<FilterDesc, int>)
      reads encoders, decoders
    {
      && (forall d :: d in encoders ==> d in other && OtherBits(d.flags) == other[d])
      && (forall d :: d in decoders ==> d in other && OtherBits(d.flags) == other[d])
    }

    /** The test function as seen from here: it looks at the flags and changes none. It is only called while
        every other bit is as it was found. */
    method CallTest(ghost other: map<FilterDesc, int>) returns (s: Snapshot)
      requires OthersAre(other)
      ensures s == Snapshot(set d | (d in encoders || d in decoders) && IsOn(d.flags))
    {
      s := Snapshot((set d | d in encoders && IsOn(d.flags)) + (set d | d in decoders && IsOn(d.flags)));
    }

    /** The inner loop: one call per decoder, with the encoder `e` alone enabled on its side. */
    method TestDecoders(e: FilterDesc, ghost other: map<FilterDesc, int>) returns (calls: seq<Snapshot>)
      requires Valid() && e in encoders && OthersAre(other)
      requires forall x :: x in encoders ==> IsOn(x.flags) == (x == e)
      modifies decoders
      ensures calls == Row(e, decoders) && OthersAre(other)
      ensures forall x :: x in decoders ==> WithBit(x.flags, true) == WithBit(old(x.flags), true)
    {
      calls := [];
      for j := 0 to |decoders|
        invariant calls == Row(e, decoders[..j]) && OthersAre(other)
        invariant forall x :: x in encoders ==> x.flags == old(x.flags)
        invariant forall x :: x in decoders ==>
                    x.flags == if j == 0 then old(x.flags) else WithBit(old(x.flags), x == decoders[j - 1])
      {
        var d := decoders[j];
        EnableOnlyOneCodec(d);
        var s := CallTest(other);
        assert s.enabled == {e, d};
        assert decoders[..j + 1][..j] == decoders[..j];
        calls := calls + [s];
      }
      assert decoders[..|decoders|] == decoders;
    }

    /** Enabling every collected codec gives back the flags that were found. */
    ghost predicate Restorable(found: map<FilterDesc, Flags>)
      reads encoders, decoders
    {
      && (forall d :: d in encoders ==> d in found && WithBit(d.flags, true) == found[d])
      && (forall d :: d in decoders ==> d in found && WithBit(d.flags, true) == found[d])
    }

    /** One turn of the outer loop. */
    method TestEncoder(e: FilterDesc, ghost other: map<FilterDesc, int>, ghost found: map<FilterDesc, Flags>)
      returns (row: seq<Snapshot>)
      requires Valid() && e in encoders && OthersAre(other) && Restorable(found)
      modifies encoders, decoders
      ensures row == Row(e, decoders) && OthersAre(other) && Restorable(found)
    {
      EnableOnlyOneCodec(e);
      row := TestDecoders(e, other);
    }

    /** The test function runs once per pair in row-major order, each time with exactly that pair enabled
        among the collected codecs; afterwards every flags word is as it was found. */
    method TestAllCombinations() returns (calls: seq<Snapshot>)
      requires Valid()
      requires forall x :: x in encoders || x in decoders ==> IsOn(x.flags)
      modifies encoders, decoders
      ensures calls == Matrix(encoders, decoders)
      ensures forall x :: x in encoders || x in decoders ==> x.flags == old(x.flags)
    {
      calls := [];
      ghost var other := map d | d in encoders || d in decoders :: OtherBits(d.flags);
      ghost var found := map d | d in encoders || d in decoders :: d.flags;
      for i := 0 to |encoders|
        invariant calls == Matrix(encoders[..i], decoders) && OthersAre(other) && Restorable(found)
      {
        var row := TestEncoder(encoders[i], other, found);
        assert encoders[..i + 1][..i] == encoders[..i];
        calls := calls + row;
      }
      assert encoders[..|encoders|] == encoders;
      EnableAllCodecs(Encoder, true);
      EnableAllCodecs(Decoder, true);
    }
  }

  lemma {:induction false} RowAt(e: FilterDesc, decoders: seq<FilterDesc>, j: nat)
    requires j < |decoders|
    ensures |Row(e, decoders)| == |decoders| && Row(e, decoders)[j] == Snapshot({e, decoders[j]})
  {
    var k := |decoders| - 1;
    if j < k {
      RowAt(e, decoders[..k], j);
    } else if k > 0 {
      RowAt(e, decoders[..k], 0);
    }
  }

  lemma RowLength(e: FilterDesc, decoders: seq<FilterDesc>)
    ensures |Row(e, decoders)| == |decoders|
  {
    if decoders != [] {
      RowAt(e, decoders, 0);
    }
  }

  lemma {:induction false} MatrixLength(encoders: seq<FilterDesc>, decoders: seq<FilterDesc>)
    ensures |Matrix(encoders, decoders)| == |encoders| * |decoders|
  {
    if encoders != [] {
      var k := |encoders| - 1;
      MatrixLength(encoders[..k], decoders);
      RowLength(encoders[k], decoders);
      assert (k + 1) * |decoders| == k * |decoders| + |decoders|;
    }
  }

  /** Call number i * |decoders| + j sees exactly encoder i and decoder j enabled. */
  lemma {:induction false} MatrixAt(encoders: seq<FilterDesc>, decoders: seq<FilterDesc>, i: nat, j: nat)
    requires i < |encoders| && j < |decoders|
    ensures i * |decoders| + j < |Matrix(encoders, decoders)|
    ensures Matrix(encoders, decoders)[i * |decoders| + j] == Snapshot({encoders[i], decoders[j]})
  {
    var k, n := |encoders| - 1, |decoders|;
    var front := encoders[..k];
    MatrixLength(front, decoders);
    if i < k {
      MatrixAt(front, decoders, i, j);
    } else {
      RowAt(encoders[k], decoders, j);
    }
  }

  /** Collecting and testing over a factory list without duplicates changes no descriptor. */
  method RunMatrix(descList: seq<FilterDesc>, mime: string) returns (cm: CodecsManager, calls: seq<Snapshot>)
    requires NoDuplicates(descList)
    modifies descList
    ensures fresh(cm) && calls == Matrix(cm.encoders, cm.decoders)
    ensures cm.encoders == old(Select(descList, mime, Encoder)) && cm.decoders == old(Select(descList, mime, Decoder))
    ensures forall d :: d in descList ==> d.flags == old(d.flags)
  {
    cm := new CodecsManager(descList, mime);
    assert forall i :: 0 <= i < |cm.encoders| ==> cm.encoders[i] in descList;
    assert forall i :: 0 <= i < |cm.decoders| ==> cm.decoders[i] in descList;
    calls := cm.TestAllCombinations();
  }
}
