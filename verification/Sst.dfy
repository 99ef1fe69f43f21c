/** Building a table file entry by entry, and point lookup in one. */
module Ssts {
  import opened Keys
  import opened Versions
  import opened Bytes
  import opened Blocks
  import opened BlockSearch
  import opened BlockMetas
  import opened Bloom
  import opened Cutting
  import opened SstFile

  function Max(a: nat, b: nat): nat {
    if a < b then b else a
  }

  function Min(a: nat, b: nat): nat {
    if a < b then a else b
  }

  /** The id range of a table; an empty one has the range 2^64 - 1 to 0. */
  function MaxId(es: seq<Entry>): nat {
    if es == [] then 0 else Max(MaxId(es[..|es| - 1]), Last(es).tid)
  }

  function MinId(es: seq<Entry>): nat {
    if es == [] then U64 - 1 else Min(MinId(es[..|es| - 1]), Last(es).tid)
  }

  /** The range is tight: every id lies in it and both ends occur. */
  lemma {:induction false} IdRange(es: seq<Entry>)
    requires es != [] && forall e :: e in es ==> e.tid < U64
    ensures forall e :: e in es ==> MinId(es) <= e.tid <= MaxId(es)
    ensures exists e :: e in es && e.tid == MinId(es)
    ensures exists e :: e in es && e.tid == MaxId(es)
  {
    var front, l := es[..|es| - 1], Last(es);
    assert es == front + [l];
    assert l in es;
    if front != [] {
      IdRange(front);
      var a :| a in front && a.tid == MinId(front);
      var b :| b in front && b.tid == MaxId(front);
      assert a in es && b in es;
    }
  }

  ghost predicate KeysNonEmpty(es: seq<Entry>) {
    forall e :: e in es ==> e.key != []
  }

  class SSTBuilder {
    const hash: seq<byte> -> nat
    const capacity: nat
    const bloom: BloomFilter?
    var block: Block
    var firstKey: Key
    var lastKey: Key
    var metas: seq<Meta>
    var data: seq<byte>
    var minId: nat
    var maxId: nat
    ghost var added: seq<Entry>

    constructor (capacity: nat, bloom: BloomFilter?, hash: seq<byte> -> nat)
      requires bloom != null ==> bloom.Valid() && bloom.hash == hash
      ensures
        && Valid() && added == [] && this.capacity == capacity && this.bloom == bloom && this.hash == hash
        && fresh(block)
    {
      this.hash, this.capacity, this.bloom := hash, capacity, bloom;
      block := new Block(capacity);
      firstKey, lastKey, metas, data := [], [], [], [];
      minId, maxId := U64 - 1, 0;
      added := [];
    }

    /** Bytes, metadata and the open block are those of the cut c. */
    ghost predicate Matches(c: Cut)
      reads `data, `metas, `block, block
    {
      && NoneEmpty(c.done) && block.capacity == capacity
      && data == Sections(c.done, hash) && metas == MetasOf(c.done, hash)
      && block.data == EncodeAll(c.open) && block.offsets == OffsetsOf(c.open)
    }

    ghost predicate Filtered()
      reads `added, bloom
    {
      bloom != null ==> bloom.Valid() && bloom.hash == hash && forall e :: e in added ==>
        MayContain(bloom.Value(), hash, e.key)
    }

    ghost predicate Valid()
      reads this, block, bloom
    {
      var c := CutAll(added, capacity);
      && Matches(c) && Filtered() && minId == MinId(added) && maxId == MaxId(added)
      && KeysNonEmpty(added)
      && (if added == [] then firstKey == lastKey == [] else firstKey == c.open[0].key && lastKey == Last(c.open).key)
    }

    function EstimatedSize(): nat
      reads this
    {
      |data|
    }

    /** Adds an entry; keys must not be empty, an empty first key is taken for none. */
    method Add(key: Key, value: Value, tid: nat)
      requires Valid() && key != []
      modifies this, block, bloom
      ensures Valid() && added == old(added) + [Entry(key, value, tid)] && (block == old(block) || fresh(block))
    {
      hide Matches, CutAll, Filtered, MaxId, MinId, BlockSize, KeysNonEmpty;
      ghost var c, e := CutAll(added, capacity), Entry(key, value, tid);
      AddSpec(added, e, capacity);
      if firstKey == [] {
        firstKey := key;
      }
      NoteKey(key, e);
      maxId := Max(maxId, tid);
      minId := Min(minId, tid);
      var force := key == lastKey;
      var ok := TryEntry(key, value, tid, force, c);
      if ok {
        lastKey := key;
        return;
      }
      FinishBlock(c);
      ok := TryEntry(key, value, tid, false, Cut(c.done + [c.open], []));
      assert [] + [e] == [e];
      firstKey := key;
      lastKey := key;
    }

    /** Puts the key into the Bloom filter. */
    method NoteKey(key: Key, ghost e: Entry)
      requires Filtered() && e.key == key
      modifies bloom, `added
      ensures Filtered() && added == old(added) + [e]
    {
      if bloom != null {
        bloom.Add(key);
      }
      added := added + [e];
    }

    method TryEntry(key: Key, value: Value, tid: nat, force: bool, ghost c: Cut) returns (ok: bool)
      requires Matches(c)
      modifies block
      ensures ok <==> force || c.open == [] || BlockSize(c.open) + |key| + |value| + 14 <= capacity
      ensures Matches(if ok then Cut(c.done, c.open + [Entry(key, value, tid)]) else c)
    {
      OffsetsSnoc(c.open, Entry(key, value, tid));
      ok := block.AddEntry(key, value, tid, force);
    }

    /** Closes the open block: its bytes, checksum and metadata are appended. */
    method FinishBlock(ghost c: Cut)
      requires Matches(c) && c.open != [] && firstKey == c.open[0].key && lastKey == Last(c.open).key
      modifies `data, `metas, `block
      ensures Matches(Cut(c.done + [c.open], [])) && fresh(block)
    {
      hide ToBytes, Sections, MetasOf, EncodeBlock;
      var encoded := EncodeBlock(block.data, block.offsets);
      metas := metas + [Meta(|data|, firstKey, lastKey)];
      data := data + encoded + ToBytes(Checksum(hash, encoded), 4);
      block := new Block(capacity);
      SectionsSnoc(c.done, c.open, hash);
    }

    /** Closes the last block and lays out the file.  There must be something to store. */
    method Build() returns (r: Result<Sst>)
      requires Valid()
      modifies this
      ensures r.Err? <==> added == []
      ensures added == old(added)
      ensures r.Ok? ==>
        var bs := Closed(CutAll(added, capacity));
        && NoneEmpty(bs) && bs != []
        && r.value == Image(bs, if bloom == null then None else Some(bloom.Value()), MinId(added), MaxId(added), hash)
    {
      hide CutAll, Matches, Filtered, MaxId, MinId;
      ghost var c := CutAll(added, capacity);
      CutKeepsAll(added, capacity);
      ClosedFlat(c);
      MatchesBlock(c);
      if block.offsets != [] {
        FinishBlock(c);
      }
      ghost var bs := Closed(c);
      r := Assemble(bs);
    }

    ghost method MatchesBlock(c: Cut)
      requires Matches(c)
      ensures block.offsets == [] <==> c.open == []
    {
    }

    /** The file content, section by section, and the table object over it. */
    method Assemble(ghost bs: seq<seq<Entry>>) returns (r: Result<Sst>)
      requires Matches(Cut(bs, [])) && Filtered()
      ensures r.Err? <==> bs == []
      ensures NoneEmpty(bs)
      ensures r.Ok? ==> r.value == Image(bs, if bloom == null then None else Some(bloom.Value()), minId, maxId, hash)
    {
      hide ToBytes, Sections, EncodeMetas, EncodeFilter, MetaOf, EncodeAll, OffsetsOf, FilterOk, MayContain;
      if metas == [] {
        return Err("Cannot build empty SST");
      }
      var meta := EncodeMetaToSlice(metas, hash);
      var filter := [];
      var value := None;
      if bloom != null {
        value := Some(bloom.Value());
        filter := bloom.Encode();
      }
      var file := data + meta + filter
        + ToBytes(|data|, 4) + ToBytes(|data| + |meta|, 4) + ToBytes(minId, 8) + ToBytes(maxId, 8);
      r := Ok(Sst(file, metas, |data| % U32, (|data| + |meta|) % U32, metas[0].first, metas[|metas| - 1].last, value,
          minId, maxId));
    }
  }

  /** Adds a whole table to a new builder and builds the file. */
  method BuildTable(builder: SSTBuilder, es: seq<Entry>) returns (r: Result<Sst>)
    requires builder.Valid() && builder.added == [] && KeysNonEmpty(es)
    modifies builder, builder.block, builder.bloom
    ensures r.Err? <==> es == []
    ensures r.Ok? && Sorted(es) && TableFits(es, builder.capacity, builder.hash) ==>
      var bs := Closed(CutAll(es, builder.capacity));
      && Flatten(bs) == es && Stores(r.value, bs, builder.hash) && Open(r.value.file, builder.hash) == Ok(r.value)
      && r.value.maxId == MaxId(es)
  {
    hide SSTBuilder.Valid, KeysNonEmpty;
    for i := 0 to |es|
      invariant
        && builder.Valid() && builder.added == es[..i] && (builder.block == old(builder.block) || fresh(builder.block))
    {
      assert es[i].key != [] by {
        KeyNonEmpty(es, i);
      }
      builder.Add(es[i].key, es[i].value, es[i].tid);
    }
    assert es[..|es|] == es;
    r := CloseTable(builder);
  }

  /** Builds the file of what was added. */
  method CloseTable(builder: SSTBuilder) returns (r: Result<Sst>)
    requires builder.Valid()
    modifies builder
    ensures r.Err? <==> old(builder.added) == []
    ensures r.Ok? && Sorted(old(builder.added)) && TableFits(old(builder.added), builder.capacity, builder.hash) ==>
      var es := old(builder.added);
      var bs := Closed(CutAll(es, builder.capacity));
      && Flatten(bs) == es && Stores(r.value, bs, builder.hash) && Open(r.value.file, builder.hash) == Ok(r.value)
      && r.value.maxId == MaxId(es)
  {
    hide SSTBuilder.Valid, Sorted;
    ghost var es := builder.added;
    FilterHolds(builder, es);
    r := builder.Build();
    if r.Ok? && Sorted(es) && TableFits(es, builder.capacity, builder.hash) {
      var f := if builder.bloom == null then None else Some(builder.bloom.Value());
      BuiltStores(es, builder.capacity, f, builder.hash);
    }
  }

  lemma KeyNonEmpty(es: seq<Entry>, i: nat)
    requires KeysNonEmpty(es) && i < |es|
    ensures es[i].key != []
  {
    assert es[i] in es;
  }

  lemma FilterHolds(b: SSTBuilder, es: seq<Entry>)
    requires b.Valid() && b.added == es
    ensures b.bloom != null ==>
      FilterOk(b.bloom.Value()) && forall e :: e in es ==> MayContain(b.bloom.Value(), b.hash, e.key)
  {
  }

  /** The table fits the file format. */
  ghost predicate TableFits(es: seq<Entry>, capacity: nat, hash: seq<byte> -> nat) {
    var bs := Closed(CutAll(es, capacity));
    NoneEmpty(bs) && ImageFits(bs, None, MinId(es), MaxId(es), hash)
  }

  lemma AddSpec(added: seq<Entry>, e: Entry, capacity: nat)
    ensures CutAll(added + [e], capacity) == CutStep(CutAll(added, capacity), e, capacity)
    ensures MaxId(added + [e]) == Max(MaxId(added), e.tid) && MinId(added + [e]) == Min(MinId(added), e.tid)
    ensures added != [] && KeysNonEmpty(added) ==> CutAll(added, capacity).open[0].key != []
    ensures KeysNonEmpty(added) && e.key != [] ==> KeysNonEmpty(added + [e])
    ensures added == [] ==> CutAll(added, capacity).open == []
  {
    var es := added + [e];
    assert es[..|es| - 1] == added && Last(es) == e;
    if added != [] {
      var c := CutAll(added, capacity);
      CutKeepsAll(added, capacity);
      FlattenSnoc(c.done, c.open);
      assert c.open[0] in added;
    }
  }

  lemma ClosedFlat(c: Cut)
    ensures Closed(c) == [] ==> Flatten(Closed(c)) == []
    ensures c.open == [] ==> Closed(c) == c.done
  {
  }

  lemma SectionsSnoc(bs: seq<seq<Entry>>, b: seq<Entry>, hash: seq<byte> -> nat)
    requires NoneEmpty(bs) && b != []
    ensures NoneEmpty(bs + [b]) && Sections(bs + [b], hash) == Sections(bs, hash) + Section(b, hash)
    ensures MetasOf(bs + [b], hash) == MetasOf(bs, hash) + [Meta(|Sections(bs, hash)|, b[0].key, Last(b).key)]
  {
    var s := bs + [b];
    assert s[..|bs|] == bs;
    forall i | 0 <= i < |s|
      ensures MetasOf(s, hash)[i] == (MetasOf(bs, hash) + [Meta(|Sections(bs, hash)|, b[0].key, Last(b).key)])[i]
    {
      if i < |bs| {
        assert s[..i] == bs[..i];
      }
    }
  }

  // ------------------------------------------------------------ lookup

  /** The table file sst holds the blocks bs of a sorted table. */
  ghost predicate Stores(sst: Sst, bs: seq<seq<Entry>>, hash: seq<byte> -> nat) {
    && NoneEmpty(bs) && bs != [] && Sorted(Flatten(bs)) && KeysApart(bs)
    && ImageFits(bs, sst.bloom, sst.minId, sst.maxId, hash)
    && sst == Image(bs, sst.bloom, sst.minId, sst.maxId, hash)
    && (sst.bloom.Some? ==> forall e :: e in Flatten(bs) ==> MayContain(sst.bloom.value, hash, e.key))
  }

  /** Key k lies outside the range of a block. */
  predicate Outside(m: Meta, k: Key) {
    Less(k, m.first) || Less(m.last, k)
  }

  /** Block ranges ascend and do not overlap. */
  ghost predicate MetasAscend(ms: seq<Meta>) {
    && (forall i :: 0 <= i < |ms| ==> !Less(ms[i].last, ms[i].first))
    && (forall i, j :: 0 <= i < j < |ms| ==> Less(ms[i].last, ms[j].first))
  }

  /** Binary search for the only block that can hold the key. */
  method FindBlockIndex(sst: Sst, key: Key, hash: seq<byte> -> nat) returns (r: Option<nat>)
    requires MetasAscend(sst.metas) && (sst.bloom.Some? ==> FilterOk(sst.bloom.value))
    ensures r.Some? ==>
      r.value < |sst.metas| && forall j :: 0 <= j < |sst.metas| && j != r.value ==> Outside(sst.metas[j], key)
    ensures r.None? ==> (sst.bloom.Some? && !MayContain(sst.bloom.value, hash, key)) || forall j ::
      0 <= j < |sst.metas| ==> Outside(sst.metas[j], key)
  {
    if sst.bloom.Some? {
      var maybe := Possibly(sst.bloom.value, hash, key);
      if !maybe {
        return None;
      }
    }
    hide MayContain, FilterOk;
    var ms := sst.metas;
    var left, right := 0, |ms|;
    while left < right
      invariant 0 <= left <= right <= |ms|
      invariant forall j :: 0 <= j < left ==> Less(ms[j].last, key)
      invariant forall j :: right <= j < |ms| ==> Less(key, ms[j].first)
    {
      var mid := (left + right) / 2;
      if Less(key, ms[mid].first) {
        RightOf(ms, key, mid);
        right := mid;
      } else if Less(ms[mid].last, key) {
        LeftOf(ms, key, mid);
        left := mid + 1;
      } else {
        AroundBlock(ms, key, mid);
        return Some(mid);
      }
    }
    return if left >= |ms| then None else Some(left);
  }

  lemma RightOf(ms: seq<Meta>, k: Key, i: nat)
    requires MetasAscend(ms) && i < |ms| && Less(k, ms[i].first)
    ensures forall j :: i <= j < |ms| ==> Less(k, ms[j].first)
  {
    forall j | i < j < |ms|
      ensures Less(k, ms[j].first)
    {
      NotLess(ms[i].first, ms[i].last, ms[j].first);
      LessTransitive(k, ms[i].first, ms[j].first);
    }
  }

  lemma LeftOf(ms: seq<Meta>, k: Key, i: nat)
    requires MetasAscend(ms) && i < |ms| && Less(ms[i].last, k)
    ensures forall j :: 0 <= j <= i ==> Less(ms[j].last, k)
  {
    forall j | 0 <= j < i
      ensures Less(ms[j].last, k)
    {
      LessTotal(ms[i].first, ms[i].last);
      if ms[i].first != ms[i].last {
        LessTransitive(ms[i].first, ms[i].last, k);
      }
      LessTransitive(ms[j].last, ms[i].first, k);
    }
  }

  /** A key inside block i is outside every other block. */
  lemma AroundBlock(ms: seq<Meta>, k: Key, i: nat)
    requires MetasAscend(ms) && i < |ms| && !Less(k, ms[i].first) && !Less(ms[i].last, k)
    ensures forall j :: 0 <= j < |ms| && j != i ==> Outside(ms[j], k)
  {
    forall j | 0 <= j < |ms| && j != i
      ensures Outside(ms[j], k)
    {
      if j < i {
        LessTotal(k, ms[i].first);
        if k != ms[i].first {
          LessTransitive(ms[j].last, ms[i].first, k);
        }
      } else {
        NotLess(k, ms[i].last, ms[j].first);
      }
    }
  }

  lemma {:induction false} BlockSorted(bs: seq<seq<Entry>>, i: nat)
    requires Sorted(Flatten(bs)) && i < |bs|
    ensures Sorted(bs[i])
  {
    var front := bs[..|bs| - 1];
    SortedSuffix(Flatten(front), bs[|bs| - 1]);
    if i < |bs| - 1 {
      BlockSorted(front, i);
    }
  }

  /** Every key of a sorted block lies between its first and its last key. */
  lemma WithinBlock(es: seq<Entry>, x: Entry)
    requires Sorted(es) && x in es
    ensures !Less(x.key, es[0].key) && !Less(Last(es).key, x.key)
  {
    var i :| 0 <= i < |es| && es[i] == x;
    LessIrreflexive(x.key);
    if i > 0 {
      assert Before(es[0], es[i]);
      if Less(es[0].key, x.key) {
        LessAsymmetric(es[0].key, x.key);
      }
    }
    NotAfterLast(es, x);
    if Less(x.key, Last(es).key) {
      LessAsymmetric(x.key, Last(es).key);
    }
  }

  lemma StoresMetas(sst: Sst, bs: seq<seq<Entry>>, hash: seq<byte> -> nat)
    requires Stores(sst, bs, hash)
    ensures |sst.metas| == |bs| && MetasAscend(sst.metas)
    ensures forall i, x, k :: 0 <= i < |bs| && x in bs[i] && Outside(sst.metas[i], k) ==> x.key != k
  {
    forall i, x | 0 <= i < |bs| && x in bs[i]
      ensures !Outside(sst.metas[i], x.key)
    {
      BlockSorted(bs, i);
      WithinBlock(bs[i], x);
    }
    forall i | 0 <= i < |bs|
      ensures !Less(sst.metas[i].last, sst.metas[i].first)
    {
      BlockSorted(bs, i);
      WithinBlock(bs[i], Last(bs[i]));
    }
    forall i, j | 0 <= i < j < |bs|
      ensures Less(sst.metas[i].last, sst.metas[j].first)
    {
      assert KeysBelow(bs[i], bs[j]);
      assert Last(bs[i]) in bs[i] && bs[j][0] in bs[j];
    }
  }

  /** Point lookup: range check, Bloom filter, block search, search inside the block.  It finds what a
      scan of the whole table finds, or a version too new for t, never the latter with legible ids. */
  method Get(sst: Sst, key: Key, t: nat, hash: seq<byte> -> nat, ghost bs: seq<seq<Entry>>) returns (r: Option<Value>)
    requires Stores(sst, bs, hash)
    ensures Finds(Flatten(bs), key, t, r)
    ensures Legible(Flatten(bs), key, t) ==> r == ValueOf(Lookup(Flatten(bs), key, t))
  {
    hide KeysBelow;
    StoresMetas(sst, bs, hash);
    if Less(key, sst.first) || Less(sst.last, key) {
      OutOfRange(sst, bs, key, t, hash);
      return None;
    }
    r := Search(sst, key, t, hash, bs);
    FindsLegible(Flatten(bs), key, t, r);
  }

  method Search(sst: Sst, key: Key, t: nat, hash: seq<byte> -> nat, ghost bs: seq<seq<Entry>>)
    returns (r: Option<Value>)
    requires Stores(sst, bs, hash)
    ensures Finds(Flatten(bs), key, t, r)
  {
    hide KeysBelow;
    StoresMetas(sst, bs, hash);
    if sst.bloom.Some? {
      var maybe := Possibly(sst.bloom.value, hash, key);
      if !maybe {
        Rejected(sst, bs, key, t, hash);
        return None;
      }
    }
    var i := FindBlockIndex(sst, key, hash);
    if i.None? {
      Nowhere(sst, bs, key, t, hash);
      return None;
    }
    r := GetInBlock(sst, key, t, hash, bs, i.value);
    OnlyIn(sst, bs, key, t, hash, i.value);
    NewInBlock(bs, i.value, key, t, r);
  }

  method GetInBlock(sst: Sst, key: Key, t: nat, hash: seq<byte> -> nat, ghost bs: seq<seq<Entry>>, i: nat)
    returns (r: Option<Value>)
    requires Stores(sst, bs, hash) && i < |bs|
    ensures Finds(bs[i], key, t, r)
  {
    hide KeysBelow;
    BlockReads(sst, bs, hash, i);
    hide ReadsBack, EncodeAll, OffsetsOf, Legible, Lookup, TooNew;
    var res := ReadBlock(sst, i, hash);
    if res.Err? {
      return None;
    }
    var b := new Block(0);
    b.data, b.offsets := res.value.0, res.value.1;
    r := b.GetValueBinary(key, t, bs[i]);
  }

  lemma BlockReads(sst: Sst, bs: seq<seq<Entry>>, hash: seq<byte> -> nat, i: nat)
    requires Stores(sst, bs, hash) && i < |bs|
    ensures ReadBlock(sst, i, hash) == Ok((EncodeAll(bs[i]), OffsetsOf(bs[i])))
    ensures ReadsBack(EncodeAll(bs[i]), OffsetsOf(bs[i]), bs[i]) && Sorted(bs[i])
  {
    hide KeysBelow;
    ReadBuiltBlock(bs, sst.bloom, sst.minId, sst.maxId, hash, i);
    BlockSorted(bs, i);
    BuiltReadsBack(bs[i]);
    HoldsReads(EncodeAll(bs[i]), OffsetsOf(bs[i]), bs[i]);
  }

  /** What a builder makes of a sorted table: a file that holds exactly that table, and that
      opens to the same object. */
  lemma BuiltStores(es: seq<Entry>, capacity: nat, bloom: Option<Filter>, hash: seq<byte> -> nat)
    requires Sorted(es) && es != []
    requires bloom.Some? ==> FilterOk(bloom.value) && forall e :: e in es ==> MayContain(bloom.value, hash, e.key)
    ensures var bs := Closed(CutAll(es, capacity));
      && NoneEmpty(bs) && bs != [] && Flatten(bs) == es
      && (ImageFits(bs, bloom, MinId(es), MaxId(es), hash) ==>
            var sst := Image(bs, bloom, MinId(es), MaxId(es), hash);
            Stores(sst, bs, hash) && Open(sst.file, hash) == Ok(sst))
  {
    hide Image, ImageFits, MinId, MaxId, KeysBelow, Stores, CutAll;
    CutKeepsAll(es, capacity);
    CutKeysApart(es, capacity);
    var bs := Closed(CutAll(es, capacity));
    assert bs != [];
    if ImageFits(bs, bloom, MinId(es), MaxId(es), hash) {
      ImageStores(bs, bloom, MinId(es), MaxId(es), hash);
    }
  }

  lemma ImageStores(bs: seq<seq<Entry>>, bloom: Option<Filter>, lo: nat, hi: nat, hash: seq<byte> -> nat)
    requires NoneEmpty(bs) && bs != [] && Sorted(Flatten(bs)) && KeysApart(bs) && ImageFits(bs, bloom, lo, hi, hash)
    requires bloom.Some? ==> forall e :: e in Flatten(bs) ==> MayContain(bloom.value, hash, e.key)
    ensures var sst := Image(bs, bloom, lo, hi, hash);
      Stores(sst, bs, hash) && Open(sst.file, hash) == Ok(sst)
  {
    hide KeysBelow, MayContain;
    ImageFields(bs, bloom, lo, hi, hash);
    OpenRoundTrip(bs, bloom, lo, hi, hash);
    hide Image;
  }

  lemma ImageFields(bs: seq<seq<Entry>>, bloom: Option<Filter>, lo: nat, hi: nat, hash: seq<byte> -> nat)
    requires NoneEmpty(bs) && bs != []
    ensures var s := Image(bs, bloom, lo, hi, hash); s.bloom == bloom && s.minId == lo && s.maxId == hi
  {
  }

  lemma NewInBlock(bs: seq<seq<Entry>>, i: nat, key: Key, t: nat, r: Option<Value>)
    requires i < |bs|
    ensures r.Some? && TooNew(bs[i], key, t, r.value) ==> TooNew(Flatten(bs), key, t, r.value)
  {
    InFlatten(bs, i);
    if r.Some? && TooNew(bs[i], key, t, r.value) {
      var j: nat :| NewAt(bs[i], key, t, r.value, j);
      assert bs[i][j] in Flatten(bs);
      var q: nat :| q < |Flatten(bs)| && Flatten(bs)[q] == bs[i][j];
      assert NewAt(Flatten(bs), key, t, r.value, q);
    }
  }

  lemma OutOfRange(sst: Sst, bs: seq<seq<Entry>>, key: Key, t: nat, hash: seq<byte> -> nat)
    requires Stores(sst, bs, hash) && (Less(key, sst.first) || Less(sst.last, key))
    ensures Lookup(Flatten(bs), key, t) == None
  {
    hide KeysBelow;
    StoresMetas(sst, bs, hash);
    if Less(key, sst.first) {
      RightOf(sst.metas, key, 0);
    } else {
      LeftOf(sst.metas, key, |sst.metas| - 1);
    }
    Nowhere(sst, bs, key, t, hash);
  }

  lemma Nowhere(sst: Sst, bs: seq<seq<Entry>>, key: Key, t: nat, hash: seq<byte> -> nat)
    requires Stores(sst, bs, hash) && forall j :: 0 <= j < |sst.metas| ==> Outside(sst.metas[j], key)
    ensures Lookup(Flatten(bs), key, t) == None
  {
    hide KeysBelow;
    StoresMetas(sst, bs, hash);
    forall j, x | 0 <= j < |bs| && x in bs[j]
      ensures x.key != key
    {
      assert Outside(sst.metas[j], key);
    }
    LookupNowhere(bs, key, t);
  }

  lemma OnlyIn(sst: Sst, bs: seq<seq<Entry>>, key: Key, t: nat, hash: seq<byte> -> nat, i: nat)
    requires
      && Stores(sst, bs, hash) && i < |bs|
      && forall j :: 0 <= j < |sst.metas| && j != i ==> Outside(sst.metas[j], key)
    ensures Lookup(Flatten(bs), key, t) == Lookup(bs[i], key, t)
  {
    hide KeysBelow;
    StoresMetas(sst, bs, hash);
    forall j, x | 0 <= j < |bs| && j != i && x in bs[j]
      ensures x.key != key
    {
      assert Outside(sst.metas[j], key);
    }
    LookupInBlock(bs, i, key, t);
  }

  /** A key the Bloom filter rejects was never added. */
  lemma Rejected(sst: Sst, bs: seq<seq<Entry>>, key: Key, t: nat, hash: seq<byte> -> nat)
    requires Stores(sst, bs, hash) && sst.bloom.Some? && !MayContain(sst.bloom.value, hash, key)
    ensures Lookup(Flatten(bs), key, t) == None
  {
    hide KeysBelow;
    LookupAbsent(Flatten(bs), key, t);
  }
}
