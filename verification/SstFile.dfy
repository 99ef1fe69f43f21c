/** The layout of a table file: blocks with checksums, metadata, Bloom filter, trailer. */
module SstFile {
  import opened Keys
  import opened Versions
  import opened Bytes
  import opened Blocks
  import opened BlockMetas
  import opened Bloom
  import opened Cutting

  /** An open table file. */
  datatype Sst = Sst(file: seq<byte>, metas: seq<Meta>, metaOffset: nat, bloomOffset: nat,
                     first: Key, last: Key, bloom: Option<Filter>, minId: nat, maxId: nat)

  /** 16-bit offsets of the entries of a block. */
  function OffsetsOf(es: seq<Entry>): (o: seq<nat>)
    ensures |o| == |es| && forall i :: 0 <= i < |es| ==> o[i] == DataSize(es[..i]) % U16
  {
    seq(|es|, i requires 0 <= i < |es| => DataSize(es[..i]) % U16)
  }

  /** One block and its checksum. */
  function Section(es: seq<Entry>, hash: seq<byte> -> nat): seq<byte> {
    var s := EncodeBlock(EncodeAll(es), OffsetsOf(es));
    s + ToBytes(Checksum(hash, s), 4)
  }

  function Sections(bs: seq<seq<Entry>>, hash: seq<byte> -> nat): seq<byte> {
    if bs == [] then [] else Sections(bs[..|bs| - 1], hash) + Section(bs[|bs| - 1], hash)
  }

  function MetaOf(bs: seq<seq<Entry>>, i: nat, hash: seq<byte> -> nat): Meta
    requires i < |bs| && bs[i] != []
  {
    Meta(|Sections(bs[..i], hash)|, bs[i][0].key, Last(bs[i]).key)
  }

  function MetasOf(bs: seq<seq<Entry>>, hash: seq<byte> -> nat): (ms: seq<Meta>)
    requires NoneEmpty(bs)
    ensures |ms| == |bs| && forall i :: 0 <= i < |bs| ==> ms[i] == MetaOf(bs, i, hash)
  {
    seq(|bs|, i requires 0 <= i < |bs| => MetaOf(bs, i, hash))
  }

  function BloomBytes(bloom: Option<Filter>): seq<byte> {
    if bloom.Some? then EncodeFilter(bloom.value) else []
  }

  /** The table file that holds the given blocks. */
  function Image(bs: seq<seq<Entry>>, bloom: Option<Filter>, lo: nat, hi: nat, hash: seq<byte> -> nat): Sst
    requires NoneEmpty(bs) && bs != []
  {
    var ms := MetasOf(bs, hash);
    var data, meta := Sections(bs, hash), EncodeMetas(ms, hash);
    Sst(FileBytes(data, meta, BloomBytes(bloom), lo, hi), ms, |data| % U32, (|data| + |meta|) % U32,
        ms[0].first, ms[|ms| - 1].last, bloom, lo, hi)
  }

  function FileBytes(data: seq<byte>, meta: seq<byte>, bl: seq<byte>, lo: nat, hi: nat): seq<byte> {
    data + meta + bl + ToBytes(|data|, 4) + ToBytes(|data| + |meta|, 4) + ToBytes(lo, 8) + ToBytes(hi, 8)
  }

  /** Reads a table file: trailer first, then filter and metadata. */
  function Open(file: seq<byte>, hash: seq<byte> -> nat): Result<Sst> {
    var n := |file|;
    if n < 24 then Err("Invalid SST file: too small")
    else
      var hi, lo := FromBytes(file[n - 8..n]), FromBytes(file[n - 16..n - 8]);
      var bloomOffset, metaOffset := FromBytes(file[n - 20..n - 16]), FromBytes(file[n - 24..n - 20]);
      if bloomOffset > n - 24 || metaOffset > bloomOffset then Err("read outside the file")
      else
        var hasBloom := bloomOffset + 24 < n;
        var bloom := if hasBloom then DecodeFilter(file[bloomOffset..n - 24]) else None;
        if hasBloom && bloom.None? then Err("read outside the buffer")
        else
          var ms := DecodeMetas(file[metaOffset..bloomOffset], hash);
          if ms.Err? then Err(ms.error)
          else if ms.value == [] then Ok(Sst(file, [], metaOffset, bloomOffset, [], [], bloom, lo, hi))
          else Ok(Sst(file, ms.value, metaOffset, bloomOffset, ms.value[0].first, ms.value[|ms.value| - 1].last, bloom,
              lo, hi))
  }

  /** Everything fits the fields it is stored in. */
  ghost predicate ImageFits(bs: seq<seq<Entry>>, bloom: Option<Filter>, lo: nat, hi: nat, hash: seq<byte> -> nat)
    requires NoneEmpty(bs)
  {
    && lo < U64 && hi < U64 && (bloom.Some? ==> FilterOk(bloom.value))
    && |bs| < U32 && |Sections(bs, hash)| + |EncodeMetas(MetasOf(bs, hash), hash)| < U32
    && (forall i :: 0 <= i < |bs| ==> BlockFits(bs[i]))
  }

  /** The offset of a block lies within the data, and its keys are those of its entries. */
  lemma MetasFit(bs: seq<seq<Entry>>, bloom: Option<Filter>, lo: nat, hi: nat, hash: seq<byte> -> nat)
    requires NoneEmpty(bs) && ImageFits(bs, bloom, lo, hi, hash)
    ensures forall i :: 0 <= i < |bs| ==> MetaFits(MetasOf(bs, hash)[i])
  {
    forall i | 0 <= i < |bs|
      ensures MetaFits(MetasOf(bs, hash)[i])
    {
      SectionsPrefix(bs, i, hash);
      assert BlockFits(bs[i]);
      assert EntryFits(bs[i][0]) && EntryFits(bs[i][|bs[i]| - 1]);
    }
  }

  lemma {:induction false} SectionsPrefix(bs: seq<seq<Entry>>, i: nat, hash: seq<byte> -> nat)
    requires i <= |bs|
    ensures |Sections(bs[..i], hash)| <= |Sections(bs, hash)|
    ensures Sections(bs, hash)[..|Sections(bs[..i], hash)|] == Sections(bs[..i], hash)
  {
    if i == |bs| {
      assert bs[..i] == bs;
    } else {
      var front := bs[..|bs| - 1];
      SectionsPrefix(front, i, hash);
      assert front[..i] == bs[..i];
      var a, b, c := Sections(bs[..i], hash), Sections(front, hash), Sections(bs, hash);
      assert c[..|a|] == b[..|a|];
    }
  }

  lemma TrailerSlices(body: seq<byte>, a: seq<byte>, b: seq<byte>, c: seq<byte>, d: seq<byte>)
    requires |a| == |b| == 4 && |c| == |d| == 8
    ensures var f := body + a + b + c + d;
      var n := |f|;
      && f[n - 24..n - 20] == a && f[n - 20..n - 16] == b && f[n - 16..n - 8] == c && f[n - 8..n] == d
  {
  }

  lemma FrontSlices(data: seq<byte>, meta: seq<byte>, bl: seq<byte>, rest: seq<byte>)
    ensures var f, m := data + meta + bl + rest, |data| + |meta|;
      f[|data|..m] == meta && f[m..m + |bl|] == bl
  {
  }

  /** What the trailer says about a file, and where the parts lie. */
  lemma FileReads(data: seq<byte>, meta: seq<byte>, bl: seq<byte>, lo: nat, hi: nat)
    requires lo < U64 && hi < U64 && |data| + |meta| < U32
    ensures var f, m := FileBytes(data, meta, bl, lo, hi), |data| + |meta|;
      var n := |f|;
      && n == m + |bl| + 24 && FromBytes(f[n - 8..n]) == hi && FromBytes(f[n - 16..n - 8]) == lo
      && FromBytes(f[n - 20..n - 16]) == m && FromBytes(f[n - 24..n - 20]) == |data|
      && f[|data|..m] == meta && f[m..n - 24] == bl
  {
    hide ToBytes, FromBytes, Pow256;
    var m4, b4, l8, h8 := ToBytes(|data|, 4), ToBytes(|data| + |meta|, 4), ToBytes(lo, 8), ToBytes(hi, 8);
    Widths();
    ReadBackFits(|data|, 4);
    ReadBackFits(|data| + |meta|, 4);
    ReadBackFits(lo, 8);
    ReadBackFits(hi, 8);
    TrailerSlices(data + meta + bl, m4, b4, l8, h8);
    FrontSlices(data, meta, bl, m4 + b4 + l8 + h8);
    assert FileBytes(data, meta, bl, lo, hi) == data + meta + bl + (m4 + b4 + l8 + h8);
  }

  /** Opening the file of a built table gives back the table: metadata, filter and id range. */
  lemma OpenRoundTrip(bs: seq<seq<Entry>>, bloom: Option<Filter>, lo: nat, hi: nat, hash: seq<byte> -> nat)
    requires NoneEmpty(bs) && bs != [] && ImageFits(bs, bloom, lo, hi, hash)
    ensures Open(Image(bs, bloom, lo, hi, hash).file, hash) == Ok(Image(bs, bloom, lo, hi, hash))
  {
    hide ToBytes, FromBytes, Sections, EncodeMetas, DecodeMetas, EncodeFilter, DecodeFilter, FileBytes, MetaOf,
      MetaFits;
    MetasFit(bs, bloom, lo, hi, hash);
    var ms := MetasOf(bs, hash);
    MetasRoundTrip(ms, hash);
    if bloom.Some? {
      FilterRoundTrip(bloom.value);
      FilterBytes(bloom.value);
    }
    FileReads(Sections(bs, hash), EncodeMetas(ms, hash), BloomBytes(bloom), lo, hi);
  }

  lemma FilterBytes(f: Filter)
    ensures |EncodeFilter(f)| > 0
  {
  }

  // ------------------------------------------------------------ reading blocks

  /** Where block i ends. */
  function BlockEnd(sst: Sst, i: nat): nat
    requires i < |sst.metas|
  {
    if i == |sst.metas| - 1 then sst.metaOffset else sst.metas[i + 1].offset
  }

  /** Data and offsets of block i. */
  function ReadBlock(sst: Sst, i: nat, hash: seq<byte> -> nat): Result<(seq<byte>, seq<nat>)> {
    if i >= |sst.metas| then Err("Block index out of range")
    else
      var from, end := sst.metas[i].offset, BlockEnd(sst, i);
      if from <= end <= |sst.file| then DecodeBlock(sst.file[from..end], true, hash)
      else Err("read outside the file")
  }

  /** Each block of a built table reads back as it was written. */
  lemma ReadBuiltBlock(bs: seq<seq<Entry>>, bloom: Option<Filter>, lo: nat, hi: nat, hash: seq<byte> -> nat, i: nat)
    requires NoneEmpty(bs) && bs != [] && ImageFits(bs, bloom, lo, hi, hash) && i < |bs|
    ensures ReadBlock(Image(bs, bloom, lo, hi, hash), i, hash) == Ok((EncodeAll(bs[i]), OffsetsOf(bs[i])))
  {
    hide Section, Sections, EncodeMetas, EncodeAll, BlockFits, ToBytes, DecodeBlock;
    var sst, data := Image(bs, bloom, lo, hi, hash), Sections(bs, hash);
    var from, end := |Sections(bs[..i], hash)|, |Sections(bs[..i + 1], hash)|;
    SectionSlice(bs, i, hash);
    assert i == |bs| - 1 ==> bs[..i + 1] == bs;
    assert sst.metas[i].offset == from && BlockEnd(sst, i) == end;
    assert sst.file[from..end] == data[from..end];
    SectionReads(bs[i], hash);
  }

  lemma SectionReads(es: seq<Entry>, hash: seq<byte> -> nat)
    requires BlockFits(es)
    ensures DecodeBlock(Section(es, hash), true, hash) == Ok((EncodeAll(es), OffsetsOf(es)))
  {
    BlockRoundTrip(EncodeAll(es), OffsetsOf(es), hash);
  }

  lemma SectionSlice(bs: seq<seq<Entry>>, i: nat, hash: seq<byte> -> nat)
    requires i < |bs|
    ensures var data, from, end := Sections(bs, hash), |Sections(bs[..i], hash)|, |Sections(bs[..i + 1], hash)|;
      from <= end <= |data| && data[from..end] == Section(bs[i], hash)
  {
    hide Section;
    SectionsPrefix(bs, i + 1, hash);
    var data, from, end := Sections(bs, hash), |Sections(bs[..i], hash)|, |Sections(bs[..i + 1], hash)|;
    assert bs[..i + 1][..i] == bs[..i];
    assert data[..end] == Sections(bs[..i + 1], hash) == Sections(bs[..i], hash) + Section(bs[i], hash);
    assert data[from..end] == data[..end][from..];
  }

  /** A block that fits reads entry by entry as what was added. */
  lemma {:induction false} BuiltReadsBack(es: seq<Entry>)
    requires BlockFits(es)
    ensures Holds(EncodeAll(es), OffsetsOf(es), es)
  {
    if es != [] {
      var front, e := es[..|es| - 1], Last(es);
      FitsFront(es);
      BuiltReadsBack(front);
      HoldsAppend(EncodeAll(front), OffsetsOf(front), front, e);
      OffsetsSnoc(front, e);
      assert front + [e] == es;
    }
  }

  lemma FitsFront(es: seq<Entry>)
    requires BlockFits(es) && es != []
    ensures BlockFits(es[..|es| - 1]) && EntryFits(Last(es)) && DataSize(es[..|es| - 1]) < U16
  {
    hide DataSize;
    var front := es[..|es| - 1];
    assert forall i :: 0 <= i < |front| ==> front[i] == es[i] && front[..i] == es[..i];
  }

  lemma OffsetsSnoc(es: seq<Entry>, e: Entry)
    ensures OffsetsOf(es + [e]) == OffsetsOf(es) + [DataSize(es) % U16]
    ensures EncodeAll(es + [e]) == EncodeAll(es) + EncodeEntry(e)
  {
    var s := es + [e];
    assert s[..|es|] == es;
    forall i | 0 <= i < |s|
      ensures OffsetsOf(s)[i] == (OffsetsOf(es) + [DataSize(es) % U16])[i]
    {
      if i < |es| {
        assert s[..i] == es[..i];
      }
    }
  }
}
