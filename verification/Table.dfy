/** Table files (table/table_builder.cc): data blocks in key order, an index that holds for
    each block a key at or past its last one and before the next block's first, a filter,
    a metaindex that leads to it, and a footer that leads to the index.
 */
module Tables {
  import opened Blocks
  import opened Bloom
  import opened Coding
  import opened Comparator
  import opened Cursors
  import opened Dbformat
  import opened FilterBlocks
  import opened Options
  import opened TableFormats
  import BI = BlockIters

  datatype IndexEntry = IndexEntry(key: InternalKey, handle: BlockHandle)

  /** The index block, entry by entry. */
  function IndexEntries(index: seq<IndexEntry>): (es: seq<Entry>)
    ensures |es| == |index|
    ensures forall i :: 0 <= i < |index| ==> es[i] == Entry(index[i].key, EncodeHandle(index[i].handle))
  {
    seq(|index|, i requires 0 <= i < |index| => Entry(index[i].key, EncodeHandle(index[i].handle)))
  }

  function Flat(blocks: seq<seq<Entry>>): seq<Entry> {
    if blocks == [] then [] else Flat(blocks[..|blocks| - 1]) + blocks[|blocks| - 1]
  }

  /** Where block i starts among all entries. */
  function Start(blocks: seq<seq<Entry>>, i: nat): nat
    requires i <= |blocks|
  {
    if i == 0 then 0 else Start(blocks, i - 1) + |blocks[i - 1]|
  }

  lemma {:induction false} StartPrefix(blocks: seq<seq<Entry>>, m: nat, i: nat)
    requires i <= m <= |blocks|
    ensures Start(blocks[..m], i) == Start(blocks, i)
  {
    if i > 0 {
      StartPrefix(blocks, m, i - 1);
    }
  }

  lemma {:induction false} FlatLength(blocks: seq<seq<Entry>>)
    ensures |Flat(blocks)| == Start(blocks, |blocks|)
  {
    if blocks != [] {
      FlatLength(blocks[..|blocks| - 1]);
      StartPrefix(blocks, |blocks| - 1, |blocks| - 1);
    }
  }

  /** Entry j of block i in the whole. */
  lemma {:induction false} FlatAt(blocks: seq<seq<Entry>>, i: nat, j: nat)
    requires i < |blocks| && j < |blocks[i]|
    ensures Start(blocks, i) + j < |Flat(blocks)| && Flat(blocks)[Start(blocks, i) + j] == blocks[i][j]
  {
    var m := |blocks| - 1;
    FlatLength(blocks[..m]);
    StartPrefix(blocks, m, m);
    StartPrefix(blocks, m, i);
    if i < m {
      FlatAt(blocks[..m], i, j);
    }
  }

  /** Every place in the whole is in some block. */
  lemma {:induction false} PlaceOf(blocks: seq<seq<Entry>>, p: nat) returns (i: nat, j: nat)
    requires p < |Flat(blocks)|
    ensures i < |blocks| && j < |blocks[i]| && p == Start(blocks, i) + j
  {
    var m := |blocks| - 1;
    FlatLength(blocks[..m]);
    StartPrefix(blocks, m, m);
    if p < |Flat(blocks[..m])| {
      i, j := PlaceOf(blocks[..m], p);
      StartPrefix(blocks, m, i);
    } else {
      i, j := m, p - |Flat(blocks[..m])|;
    }
  }

  function FirstKey(blocks: seq<seq<Entry>>, i: nat): Option<InternalKey> {
    if i < |blocks| && blocks[i] != [] then Some(blocks[i][0].key) else None
  }

  /** `key` may stand in the index for a block: at its last key, or later but with a user
      key strictly before that of the next block's first key. */
  predicate Separates(key: InternalKey, block: seq<Entry>, next: Option<InternalKey>) {
    && block != [] && NotAfter(block[|block| - 1].key, key)
    && (next.Some? ==>
          Before(key, next.value) && (key == block[|block| - 1].key || Less(key.user, next.value.user)))
  }

  ghost predicate BlocksOk(blocks: seq<seq<Entry>>) {
    forall b :: 0 <= b < |blocks| ==> blocks[b] != [] && Sorted(blocks[b])
  }

  ghost predicate IndexOk(index: seq<IndexEntry>, blocks: seq<seq<Entry>>) {
    && |index| <= |blocks|
    && forall i :: 0 <= i < |index| ==> Separates(index[i].key, blocks[i], FirstKey(blocks, i + 1))
  }

  /** A finished table: one index entry for each block. */
  ghost predicate WellSeparated(index: seq<IndexEntry>, blocks: seq<seq<Entry>>) {
    |index| == |blocks| && BlocksOk(blocks) && IndexOk(index, blocks)
  }

  // ---- the builder ----

  /** Every block but the last has its index entry; the last one ends with the last key. */
  ghost predicate Growing(index: seq<IndexEntry>, all: seq<seq<Entry>>, lastKey: Option<InternalKey>) {
    && BlocksOk(all) && IndexOk(index, all)
    && |index| == (if all == [] then 0 else |all| - 1)
    && (all == [] ==> lastKey == None)
    && (all != [] ==> all[|all| - 1] != [] && lastKey == Some(all[|all| - 1][|all[|all| - 1]| - 1].key))
  }

  lemma AddedToLast(index: seq<IndexEntry>, all: seq<seq<Entry>>, lastKey: Option<InternalKey>, e: Entry)
    requires Growing(index, all, lastKey) && all != [] && Before(lastKey.value, e.key)
    ensures Growing(index, all[|all| - 1 := all[|all| - 1] + [e]], Some(e.key))
  {
    hide Before;
    OrderLaws();
    var m := |all| - 1;
    var all' := all[m := all[m] + [e]];
    forall i | 0 <= i < |index|
      ensures Separates(index[i].key, all'[i], FirstKey(all', i + 1))
    {
      assert Separates(index[i].key, all[i], FirstKey(all, i + 1));
      assert FirstKey(all', i + 1) == FirstKey(all, i + 1);
    }
  }

  lemma AddedNew(index: seq<IndexEntry>, all: seq<seq<Entry>>, lastKey: Option<InternalKey>, e: Entry,
                 entry: IndexEntry)
    requires Growing(index, all, lastKey) && all != []
    requires Separates(entry.key, all[|all| - 1], Some(e.key))
    ensures Growing(index + [entry], all + [[e]], Some(e.key))
  {
    hide Before, Separates;
    var all' := all + [[e]];
    forall i | 0 <= i < |index|
      ensures Separates((index + [entry])[i].key, all'[i], FirstKey(all', i + 1))
    {
      assert Separates(index[i].key, all[i], FirstKey(all, i + 1));
      assert FirstKey(all', i + 1) == FirstKey(all, i + 1);
    }
    assert FirstKey(all', |all|) == Some(e.key);
  }

  lemma AddedFirst(none: seq<seq<Entry>>, e: Entry)
    requires none == []
    ensures Growing([], none + [[e]], Some(e.key))
  {
  }

  lemma LastEntry(index: seq<IndexEntry>, all: seq<seq<Entry>>, lastKey: Option<InternalKey>, entry: IndexEntry)
    requires Growing(index, all, lastKey) && all != [] && NotAfter(lastKey.value, entry.key)
    ensures WellSeparated(index + [entry], all)
  {
    hide Before;
    forall i | 0 <= i < |all|
      ensures Separates((index + [entry])[i].key, all[i], FirstKey(all, i + 1))
    {
      assert i < |index| ==> Separates(index[i].key, all[i], FirstKey(all, i + 1));
    }
  }

  // ---- the file ----

  function Raw(plan: BI.Plan): Bytes {
    Contents(plan.body, plan.points)
  }

  /** The block that a builder makes of these entries. */
  ghost predicate Packed(plan: BI.Plan, kvs: seq<KV>) {
    && plan.es == kvs
    && Entries(plan.body, plan.es, plan.offs, plan.shares)
    && Restarts(plan.points, plan.es, plan.offs, plan.shares, plan.rs)
  }

  /** A block of these entries is in the file. */
  ghost predicate BlockInFile(c: Codec, file: Bytes, h: BlockHandle, plan: BI.Plan, kvs: seq<KV>) {
    InFile(c, file, h, Raw(plan)) && Packed(plan, kvs)
  }

  /** The data blocks written so far. */
  ghost predicate Layout(c: Codec, file: Bytes, handles: seq<BlockHandle>, plans: seq<BI.Plan>,
                         blocks: seq<seq<Entry>>) {
    && |handles| == |plans| == |blocks|
    && forall i :: 0 <= i < |blocks| ==> BlockInFile(c, file, handles[i], plans[i], KVs(blocks[i]))
  }

  lemma BlockStays(c: Codec, file: Bytes, file': Bytes, h: BlockHandle, plan: BI.Plan, kvs: seq<KV>)
    requires BlockInFile(c, file, h, plan, kvs) && file <= file'
    ensures BlockInFile(c, file', h, plan, kvs)
  {
    hide Packed, InFile;
    StaysInFile(c, file, file', h, Raw(plan));
  }

  lemma LayoutStays(c: Codec, file: Bytes, file': Bytes, handles: seq<BlockHandle>, plans: seq<BI.Plan>,
                    blocks: seq<seq<Entry>>)
    requires Layout(c, file, handles, plans, blocks) && file <= file'
    ensures Layout(c, file', handles, plans, blocks)
  {
    hide BlockInFile;
    forall i | 0 <= i < |blocks|
      ensures BlockInFile(c, file', handles[i], plans[i], KVs(blocks[i]))
    {
      BlockStays(c, file, file', handles[i], plans[i], KVs(blocks[i]));
    }
  }

  lemma LayoutGrows(c: Codec, file: Bytes, file': Bytes, handles: seq<BlockHandle>, plans: seq<BI.Plan>,
                    blocks: seq<seq<Entry>>, h: BlockHandle, plan: BI.Plan, block: seq<Entry>)
    requires Layout(c, file, handles, plans, blocks) && file <= file'
    requires BlockInFile(c, file', h, plan, KVs(block))
    ensures Layout(c, file', handles + [h], plans + [plan], blocks + [block]) && |plans| == |blocks| == |handles|
  {
    hide BlockInFile;
    LayoutStays(c, file, file', handles, plans, blocks);
  }

  /** Every key in a block was added to the filter under the block's offset. */
  ghost predicate Filtered(added: set<(nat, Bytes)>, handles: seq<BlockHandle>, blocks: seq<seq<Entry>>) {
    && |handles| == |blocks|
    && forall a, b :: 0 <= a < |blocks| && 0 <= b < |blocks[a]| ==> (handles[a].offset, blocks[a][b].key.user) in added
  }

  /** What the filter of a block may say: never no to a user key in it. */
  type Filter = (BlockHandle, Bytes) -> bool

  ghost predicate NoFalseNegatives(mayMatch: Filter, index: seq<IndexEntry>, blocks: seq<seq<Entry>>) {
    && |index| == |blocks|
    && forall i, j :: 0 <= i < |blocks| && 0 <= j < |blocks[i]| ==> mayMatch(index[i].handle, blocks[i][j].key.user)
  }

  /** A reader asks the filter block with the block's offset and the user key. */
  function AsFilter(contents: Bytes): Filter {
    (h: BlockHandle, user: Bytes) => Answer(contents, h.offset, user)
  }

  datatype FilterPart = FilterPart(handle: BlockHandle, contents: Bytes)

  /** What a table file was made of. */
  datatype Made = Made(index: seq<IndexEntry>, blocks: seq<seq<Entry>>, plans: seq<BI.Plan>, indexPlan: BI.Plan,
                       metaPlan: BI.Plan, filter: Option<FilterPart>, footer: Footer)

  /** The metaindex block leads from the filter's name to its handle. */
  function MetaEntries(name: Bytes, filter: Option<FilterPart>): seq<KV> {
    if filter.Some? then [KV(name, EncodeHandle(filter.value.handle))] else []
  }

  function Handles(index: seq<IndexEntry>): (hs: seq<BlockHandle>)
    ensures |hs| == |index| && forall i :: 0 <= i < |index| ==> hs[i] == index[i].handle
  {
    seq(|index|, i requires 0 <= i < |index| => index[i].handle)
  }

  /** A whole table file; `name` is what its filter goes by. */
  ghost predicate TableBytes(c: Codec, name: Bytes, file: Bytes, made: Made) {
    && WellSeparated(made.index, made.blocks)
    && Layout(c, file, Handles(made.index), made.plans, made.blocks)
    && BlockInFile(c, file, made.footer.index, made.indexPlan, KVs(IndexEntries(made.index)))
    && BlockInFile(c, file, made.footer.metaindex, made.metaPlan, MetaEntries(name, made.filter))
    && (made.filter.Some? ==> FilterInFile(c, file, made.filter.value, made.index, made.blocks))
    && |file| >= |EncodeFooter(made.footer)|
    && file[|file| - |EncodeFooter(made.footer)|..] == EncodeFooter(made.footer)
  }

  ghost predicate FilterInFile(c: Codec, file: Bytes, f: FilterPart, index: seq<IndexEntry>, blocks: seq<seq<Entry>>) {
    && InFile(c, file, f.handle, f.contents)
    && (|f.contents| < MAX32 ==> NoFalseNegatives(AsFilter(f.contents), index, blocks))
  }

  /** Blocks follow each other from the start of the file on, all before `end`. */
  ghost predicate InSteps(handles: seq<BlockHandle>, end: nat) {
    && (forall i, j :: 0 <= i < j < |handles| ==> handles[i].offset < handles[j].offset)
    && (forall i :: 0 <= i < |handles| ==> handles[i].offset < end)
    && (if handles == [] then end == 0 else handles[0].offset == 0)
  }

  class TableBuilder {
    const codec: Codec
    const name: Bytes  // of the filter
    const blockSize: nat
    const dataBlock: BlockBuilder
    const indexBlock: BlockBuilder
    const filterBlock: FilterBlockBuilder?
    var file: Bytes
    var offset: nat
    var lastKey: Option<InternalKey>
    var pendingIndexEntry: bool
    var pendingHandle: BlockHandle
    var closed: bool

    ghost var block: seq<Entry>         // the data block being filled
    ghost var index: seq<IndexEntry>    // the index block so far
    ghost var blocks: seq<seq<Entry>>   // the data blocks written so far,
    ghost var handles: seq<BlockHandle> // where they are
    ghost var plans: seq<BI.Plan>       // and how they are packed

    /** The blocks written and the one being filled. */
    ghost function All(): seq<seq<Entry>>
      reads this
    {
      if block == [] then blocks else blocks + [block]
    }

    /** Every index entry points at its block; the one to come is for the last. */
    ghost predicate Pointed()
      reads this
    {
      && |handles| == |blocks| && |index| <= |handles|
      && (forall i :: 0 <= i < |index| ==> index[i].handle == handles[i])
      && (pendingIndexEntry ==> handles != [] && pendingHandle == handles[|handles| - 1])
    }

    /** And no two blocks are at the same place. */
    ghost predicate HandlesOk()
      reads this
    {
      Pointed() && InSteps(handles, offset)
    }

    /** The builders of the three blocks have what the entries so far make of them. */
    ghost predicate BuildersOk()
      reads this, dataBlock, indexBlock, filterBlock
    {
      && dataBlock != indexBlock && dataBlock.Valid() && indexBlock.Valid()
      && dataBlock.es == KVs(block) && indexBlock.es == KVs(IndexEntries(index))
      && (filterBlock != null ==>
            && filterBlock.Valid() && |filterBlock.filterOffsets| == offset / BASE
            && Filtered(filterBlock.added, handles + [BlockHandle(offset, 0)], blocks + [block]))
    }

    ghost predicate Valid()
      reads this, dataBlock, indexBlock, filterBlock
    {
      && GoodCodec(codec) && offset == |file|
      && Growing(index, All(), lastKey) && HandlesOk() && BuildersOk()
      && Layout(codec, file, handles, plans, blocks)
      && (pendingIndexEntry <==> block == [] && blocks != [])
    }

    constructor (codec: Codec, name: Bytes, blockSize: nat, interval: nat, policy: BloomFilterPolicy?)
      requires GoodCodec(codec) && interval >= 1 && (policy != null ==> policy.Valid())
      ensures Valid() && All() == [] && !closed && lastKey == None
      ensures fresh(dataBlock) && fresh(indexBlock) && (filterBlock != null ==> fresh(filterBlock))
      ensures this.codec == codec && this.name == name && (filterBlock != null <==> policy != null)
    {
      this.codec, this.name, this.blockSize := codec, name, blockSize;
      var dataBlock := new BlockBuilder(interval);
      var indexBlock := new BlockBuilder(1);
      var filterBlock: FilterBlockBuilder? := null;
      if policy != null {
        filterBlock := new FilterBlockBuilder(policy);
        filterBlock.StartBlock(0);
      }
      this.dataBlock, this.indexBlock, this.filterBlock := dataBlock, indexBlock, filterBlock;
      file, offset, lastKey, pendingIndexEntry := [], 0, None, false;
      pendingHandle, closed := BlockHandle(0, 0), false;
      block, index, blocks, handles, plans := [], [], [], [], [];
    }

    method Add(key: InternalKey, value: Bytes)
      requires Valid() && !closed && (lastKey.Some? ==> Before(lastKey.value, key))
      modifies this, dataBlock, indexBlock, filterBlock
      ensures Valid() && !closed && lastKey == Some(key)
      ensures Flat(All()) == old(Flat(All())) + [Entry(key, value)]
      ensures block != [] ==>
                && block == old(block) + [Entry(key, value)] && blocks == old(blocks)
                && dataBlock.CurrentSizeEstimate() < blockSize
      ensures block == [] ==>
                && blocks == old(blocks) + [old(block) + [Entry(key, value)]]
                && |plans| == |blocks| && |Raw(plans[|blocks| - 1])| >= blockSize
    {
      hide Before, Growing, Flat, HandlesOk, BuildersOk, Layout, GoodCodec;
      ghost var e := Entry(key, value);
      AddIndexEntry(key, e);
      AddEntry(Entry(key, value));
      var estimatedBlockSize := dataBlock.CurrentSizeEstimate();
      if estimatedBlockSize >= blockSize {
        Flush();
      }
    }

    /** Everything is in place for e to be the next entry. */
    ghost predicate Awaits(e: Entry)
      reads this, dataBlock, indexBlock, filterBlock
    {
      && GoodCodec(codec) && offset == |file|
      && Growing(index, blocks + [block + [e]], Some(e.key)) && HandlesOk() && BuildersOk()
      && Layout(codec, file, handles, plans, blocks) && !pendingIndexEntry
    }

    /** The index entry for a block waits for the next key, so that it can be short: where the block's
        last user key and the next differ by more than one it is cut there, if that makes it shorter. */
    method AddIndexEntry(key: InternalKey, ghost e: Entry)
      requires Valid() && !closed && (lastKey.Some? ==> Before(lastKey.value, key)) && e.key == key
      modifies this`index, this`pendingIndexEntry, indexBlock
      ensures Awaits(e)
      ensures if old(pendingIndexEntry) then
                && Appended(old(index), index, pendingHandle) && lastKey.Some?
                && ShortSeparator(lastKey.value, key, index[|index| - 1].key)
              else index == old(index)
    {
      hide Before, Growing, Flat, Layout, GoodCodec, Filtered, BlockBuilder.Valid, FilterBlockBuilder.Valid, KVs,
        EncodeKey, EncodeHandle, ShortSeparator;
      ghost var all, index0 := All(), index;
      KeyKnown(index, all, lastKey);
      AllGrows(blocks, block, e);
      if pendingIndexEntry {
        var sep := FindShortestInternalSeparator(lastKey.value, key);
        MaySeparate(sep, lastKey.value, key, all[|all| - 1]);
        ghost var entry := IndexEntry(sep, pendingHandle);
        indexBlock.Add(EncodeKey(sep), EncodeHandle(pendingHandle));
        IndexAdds(index, entry);
        index := index + [entry];
        AddedNew(index0, all, lastKey, e, entry);
        pendingIndexEntry := false;
      } else if block == [] {
        AddedFirst(blocks, e);
      } else {
        AddedToLast(index0, all, lastKey, e);
      }
    }

    /** One more index entry, for the block at h. */
    static ghost predicate Appended(before: seq<IndexEntry>, after: seq<IndexEntry>, h: BlockHandle) {
      |after| == |before| + 1 && after[..|before|] == before && after[|before|].handle == h
    }

    method AddEntry(e: Entry)
      requires Awaits(e)
      modifies this`block, this`lastKey, dataBlock, filterBlock
      ensures Valid() && lastKey == Some(e.key)
      ensures Flat(All()) == old(Flat(All())) + [e]
      ensures block == old(block) + [e] && blocks == old(blocks)
    {
      hide Before, Growing, Flat, Layout, GoodCodec, Filtered, BlockBuilder.Valid, FilterBlockBuilder.Valid, KVs,
        EncodeKey, EncodeHandle;
      FlatAdds(blocks, block, e);
      if filterBlock != null {
        FilteredAdds(filterBlock.added, handles, offset, blocks, block, e);
        filterBlock.AddKey(e.key.user, offset);
      }
      lastKey := Some(e.key);
      dataBlock.Add(EncodeKey(e.key), e.value);
      KVsAdds(block, e);
      block := block + [e];
    }

    static lemma KVsAdds(es: seq<Entry>, e: Entry)
      ensures KVs(es + [e]) == KVs(es) + [KV(EncodeKey(e.key), e.value)]
    {
    }

    static lemma IndexAdds(index: seq<IndexEntry>, entry: IndexEntry)
      ensures KVs(IndexEntries(index + [entry]))
              == KVs(IndexEntries(index)) + [KV(EncodeKey(entry.key), EncodeHandle(entry.handle))]
    {
      hide EncodeKey, EncodeHandle;
      var es := IndexEntries(index);
      assert IndexEntries(index + [entry]) == es + [Entry(entry.key, EncodeHandle(entry.handle))];
      KVsAdds(es, Entry(entry.key, EncodeHandle(entry.handle)));
    }

    static lemma FilteredAdds(added: set<(nat, Bytes)>, handles: seq<BlockHandle>, offset: nat, blocks: seq<seq<Entry>>,
                              block: seq<Entry>, e: Entry)
      requires Filtered(added, handles + [BlockHandle(offset, 0)], blocks + [block])
      ensures Filtered(added + {(offset, e.key.user)}, handles + [BlockHandle(offset, 0)], blocks + [block + [e]])
    {
      forall a, b | 0 <= a < |blocks| + 1 && 0 <= b < |(blocks + [block + [e]])[a]|
        ensures ((handles + [BlockHandle(offset, 0)])[a].offset, (blocks + [block + [e]])[a][b].key.user)
                in added + {(offset, e.key.user)}
      {
        if a < |blocks| || b < |block| {
          assert (blocks + [block])[a][b] == (blocks + [block + [e]])[a][b];
        }
      }
    }

    static lemma AllGrows(blocks: seq<seq<Entry>>, block: seq<Entry>, e: Entry)
      ensures block == [] ==> blocks + [block + [e]] == blocks + [[e]]
      ensures block != [] ==>
                var all := blocks + [block];
                blocks + [block + [e]] == all[|all| - 1 := all[|all| - 1] + [e]]
    {
      assert block == [] ==> block + [e] == [e];
    }

    static lemma KeyKnown(index: seq<IndexEntry>, all: seq<seq<Entry>>, lastKey: Option<InternalKey>)
      requires Growing(index, all, lastKey)
      ensures all == [] <==> lastKey == None
      ensures all == [] ==> index == []
      ensures all != [] ==> |index| == |all| - 1 && all[|all| - 1] != []
                            && lastKey == Some(all[|all| - 1][|all[|all| - 1]| - 1].key)
    {
    }

    static lemma NothingYet(index: seq<IndexEntry>, all: seq<seq<Entry>>, lastKey: Option<InternalKey>)
      requires Growing(index, all, lastKey)
      ensures all == [] ==> WellSeparated(index, all)
    {
    }

    static lemma MaySeparate(sep: InternalKey, last: InternalKey, key: InternalKey, block: seq<Entry>)
      requires block != [] && last == block[|block| - 1].key && Before(last, key)
      requires NotAfter(last, sep) && Before(sep, key) && (sep == last || Less(sep.user, key.user))
      ensures Separates(sep, block, Some(key))
    {
    }

    static lemma FlatAdds(blocks: seq<seq<Entry>>, block: seq<Entry>, e: Entry)
      ensures Flat(blocks + [block + [e]]) ==
              (if block == [] then Flat(blocks) else Flat(blocks + [block])) + [e]
    {
      assert (blocks + [block + [e]])[..|blocks|] == blocks;
      assert (blocks + [block])[..|blocks|] == blocks;
      assert Flat(blocks) + (block + [e]) == Flat(blocks) + block + [e];
      if block == [] {
        assert Flat(blocks) + block == Flat(blocks);
      }
    }

    /** The filter knows the block just written, and the next one starts at `next`. */
    static lemma FilteredMoves(added: set<(nat, Bytes)>, handles: seq<BlockHandle>, offset: nat,
                               blocks: seq<seq<Entry>>,
                               block: seq<Entry>, h: BlockHandle, next: nat)
      requires Filtered(added, handles + [BlockHandle(offset, 0)], blocks + [block]) && h.offset == offset
      ensures Filtered(added, (handles + [h]) + [BlockHandle(next, 0)], (blocks + [block]) + [[]])
    {
      forall a, b | 0 <= a < |blocks| + 2 && 0 <= b < |((blocks + [block]) + [[]])[a]|
        ensures (((handles + [h]) + [BlockHandle(next, 0)])[a].offset,
                 ((blocks + [block]) + [[]])[a][b].key.user) in added
      {
        assert (blocks + [block])[a][b] == ((blocks + [block]) + [[]])[a][b];
      }
    }

    static lemma UnitsGrow(a: nat, b: nat)
      requires a <= b
      ensures a / BASE <= b / BASE
    {
    }

    method Flush()
      requires Valid() && !closed
      modifies this, dataBlock, filterBlock
      ensures Valid() && !closed && All() == old(All()) && lastKey == old(lastKey) && index == old(index)
      ensures block == [] && (All() != [] ==> pendingIndexEntry) && blocks == All()
      ensures old(block) != [] ==>
                && blocks == old(blocks) + [old(block)]
                && |plans| == |blocks| && |Raw(plans[|blocks| - 1])| == old(dataBlock.CurrentSizeEstimate())
    {
      hide Raw, Growing, Layout, GoodCodec, Filtered, BlockBuilder.Valid, FilterBlockBuilder.Valid,
        BlockBuilder.Empty, KVs;
      ghost var offset0 := offset;
      EmptyBlock(block);
      dataBlock.EmptyIsEmpty();
      if dataBlock.Empty() {
        KeyKnown(index, All(), lastKey);
        return;
      }
      WriteDataBlock();
      pendingIndexEntry := true;
      if filterBlock != null {
        FilteredMoves(filterBlock.added, old(handles), offset0, old(blocks), old(block), pendingHandle, offset);
        UnitsGrow(offset0, offset);
        filterBlock.StartBlock(offset);
      }
    }

    method WriteDataBlock()
      requires dataBlock.Valid() && dataBlock.es == KVs(block) && GoodCodec(codec) && offset == |file|
      requires Layout(codec, file, handles, plans, blocks)
      modifies this`file, this`offset, this`pendingHandle, this`block, this`blocks, this`handles, this`plans, dataBlock
      ensures dataBlock.Valid() && dataBlock.es == KVs(block) && block == [] && blocks == old(blocks) + [old(block)]
      ensures Layout(codec, file, handles, plans, blocks) && offset == |file| && offset > old(offset)
      ensures handles == old(handles) + [pendingHandle] && pendingHandle.offset == old(offset)
      ensures |plans| == |blocks| && |Raw(plans[|blocks| - 1])| == old(dataBlock.CurrentSizeEstimate())
    {
      hide Layout, GoodCodec, BlockBuilder.Valid, BlockInFile, KVs, Raw;
      ghost var plan;
      pendingHandle, plan := WriteBlock(dataBlock);
      LayoutGrows(codec, old(file), file, handles, plans, blocks, pendingHandle, plan, block);
      blocks, handles, plans, block := blocks + [block], handles + [pendingHandle], plans + [plan], [];
      EmptyBlock([]);
    }

    static lemma EmptyBlock(block: seq<Entry>)
      ensures KVs(block) == [] <==> block == []
      ensures KVs([]) == []
    {
      assert |KVs(block)| == |block|;
    }

    /** The block goes to the end of the file, compressed if that pays, and the builder starts
        afresh. */
    method WriteBlock(b: BlockBuilder) returns (h: BlockHandle, ghost plan: BI.Plan)
      requires b.Valid() && GoodCodec(codec) && offset == |file|
      modifies this`file, this`offset, b
      ensures b.Valid() && b.es == []
      ensures offset == |file| && old(file) < file && h.offset == |old(file)|
      ensures file == old(file) + Framed(codec, Store(codec, Raw(plan)))
      ensures BlockInFile(codec, file, h, plan, old(b.es)) && |Raw(plan)| == old(b.CurrentSizeEstimate())
    {
      hide GoodCodec, Store, Entries, Restarts, Contents;
      plan := BI.Plan(b.buffer, b.restarts, b.es, b.offs, b.shares, b.rs);
      var raw := b.Finish();
      StoreRoundTrip(codec, raw);
      h := WriteRawBlock(Store(codec, raw), raw);
      b.Reset();
    }

    method WriteRawBlock(s: Stored, ghost raw: Bytes) returns (h: BlockHandle)
      requires offset == |file| && Unstore(codec, s) == Some(raw)
      modifies this`file, this`offset
      ensures h == BlockHandle(|old(file)|, |s.data|) && InFile(codec, file, h, raw)
      ensures file == old(file) + Framed(codec, s) && offset == |file| == old(offset) + h.size + TRAILER
    {
      hide Unstore, InFile, Framed;
      FramedSize(codec, s);
      NowInFile(codec, file, s, raw);
      h := BlockHandle(offset, |s.data|);
      file := file + Framed(codec, s);
      offset := offset + |s.data| + TRAILER;
    }

    /** The filter, the metaindex, the index and the footer: the file holds exactly what was
        added, in order. */
    method Finish() returns (ghost made: Made)
      requires Valid() && !closed
      modifies this, dataBlock, indexBlock, filterBlock
      ensures closed && TableBytes(codec, name, file, made)
      ensures Flat(made.blocks) == old(Flat(All())) && (made.filter.Some? <==> filterBlock != null)
      ensures made.index != [] ==> made.index[0].handle.offset == 0
      ensures forall i, j :: 0 <= i < j < |made.index| ==> made.index[i].handle.offset < made.index[j].handle.offset
    {
      hide Growing, Flat, Layout, GoodCodec, TableBytes, BlockBuilder.Valid, FilterBlockBuilder.Valid, KVs, Filtered,
        IndexEntries;
      Flush();
      closed := true;
      dataBlock.IntervalIsGood();
      made := WriteRest();
    }

    method WriteRest() returns (ghost made: Made)
      requires GoodCodec(codec) && offset == |file| && Layout(codec, file, handles, plans, blocks)
               && dataBlock.interval >= 1
      requires Growing(index, blocks, lastKey) && Pointed() && (pendingIndexEntry <==> blocks != [])
      requires indexBlock.Valid() && indexBlock.es == KVs(IndexEntries(index))
      requires filterBlock != null ==>
                 && filterBlock.Valid()
                 && Filtered(filterBlock.added, handles + [BlockHandle(offset, 0)], blocks + [[]])
      modifies this`file, this`offset, this`index, this`pendingIndexEntry, indexBlock, filterBlock
      ensures TableBytes(codec, name, file, made) && made.blocks == blocks && Handles(made.index) == handles
      ensures made.filter.Some? <==> filterBlock != null
    {
      hide InSteps, Framed, Store, Raw, Growing, WellSeparated, Layout, GoodCodec, BlockBuilder.Valid,
        FilterBlockBuilder.Valid, KVs, IndexEntries,
        BlockInFile, Filtered, EncodeFooter, MetaEntries, FilterKept, TableBytes;
      ghost var file0 := file;
      var metaBlock := new BlockBuilder(dataBlock.interval);
      ghost var filter := WriteFilter(metaBlock);
      ghost var file1 := file;
      var metaindexHandle, indexHandle;
      ghost var metaPlan, indexPlan;
      metaindexHandle, metaPlan := WriteBlock(metaBlock);
      ghost var file2 := file;
      FinishIndex();
      indexHandle, indexPlan := WriteBlock(indexBlock);
      ghost var file3 := file;
      var footer := Footer(metaindexHandle, indexHandle);
      file := file + EncodeFooter(footer);
      offset := offset + |EncodeFooter(footer)|;
      made := Made(index, blocks, plans, indexPlan, metaPlan, filter, footer);
      Assembled(codec, name, file0, file1, file2, file3, file, made, handles);
    }

    /** The filter answers for every block. */
    static ghost predicate FilterKept(c: Codec, file: Bytes, f: FilterPart, handles: seq<BlockHandle>,
                                      blocks: seq<seq<Entry>>) {
      && InFile(c, file, f.handle, f.contents) && |handles| == |blocks|
      && (|f.contents| < MAX32 ==>
            forall a, b :: 0 <= a < |blocks| && 0 <= b < |blocks[a]| ==>
              Answer(f.contents, handles[a].offset, blocks[a][b].key.user))
    }

    static lemma Assembled(c: Codec, name: Bytes, file0: Bytes, file1: Bytes, file2: Bytes, file3: Bytes, file: Bytes,
                           made: Made, handles: seq<BlockHandle>)
      requires file0 <= file1 <= file2 <= file3 && file == file3 + EncodeFooter(made.footer)
      requires WellSeparated(made.index, made.blocks) && Handles(made.index) == handles
      requires Layout(c, file0, handles, made.plans, made.blocks)
      requires made.filter.Some? ==> FilterKept(c, file1, made.filter.value, handles, made.blocks)
      requires BlockInFile(c, file2, made.footer.metaindex, made.metaPlan, MetaEntries(name, made.filter))
      requires BlockInFile(c, file3, made.footer.index, made.indexPlan, KVs(IndexEntries(made.index)))
      ensures TableBytes(c, name, file, made)
    {
      hide WellSeparated, Layout, KVs, BlockInFile, EncodeFooter, MetaEntries, InFile, Answer;
      assert file0 <= file && file1 <= file && file2 <= file && file3 <= file;
      LayoutStays(c, file0, file, handles, made.plans, made.blocks);
      BlockStays(c, file2, file, made.footer.metaindex, made.metaPlan, MetaEntries(name, made.filter));
      BlockStays(c, file3, file, made.footer.index, made.indexPlan, KVs(IndexEntries(made.index)));
      if made.filter.Some? {
        StaysInFile(c, file1, file, made.filter.value.handle, made.filter.value.contents);
      }
    }

    /** The filter block, if there is one, and the metaindex entry for it. */
    method WriteFilter(metaBlock: BlockBuilder) returns (ghost filter: Option<FilterPart>)
      requires metaBlock.Valid() && metaBlock.es == [] && offset == |file| && |handles| == |blocks|
      requires filterBlock != null ==>
                 && filterBlock.Valid()
                 && Filtered(filterBlock.added, handles + [BlockHandle(offset, 0)], blocks + [[]])
      modifies this`file, this`offset, filterBlock, metaBlock
      ensures metaBlock.Valid() && metaBlock.es == MetaEntries(name, filter)
      ensures offset == |file| && old(file) <= file && (filter.Some? <==> filterBlock != null)
      ensures filter.Some? ==> FilterKept(codec, file, filter.value, handles, blocks)
    {
      hide BlockBuilder.Valid, FilterBlockBuilder.Valid, InFile, EncodeHandle, Answer, FilterKept, Filtered;
      filter := None;
      if filterBlock != null {
        ghost var added, offset0 := filterBlock.added, offset;
        ghost var data;
        var contents;
        contents, data := filterBlock.Finish();
        var filterHandle := WriteRawBlock(Stored(contents, NO_COMPRESSION), contents);
        filter := Some(FilterPart(filterHandle, contents));
        metaBlock.Add(name, EncodeHandle(filterHandle));
        AllAnswer(codec, file, filter.value, added, handles, offset0, blocks);
      }
    }

    static lemma AllAnswer(c: Codec, file: Bytes, f: FilterPart, added: set<(nat, Bytes)>, handles: seq<BlockHandle>,
                           offset: nat, blocks: seq<seq<Entry>>)
      requires InFile(c, file, f.handle, f.contents) && |handles| == |blocks|
      requires Filtered(added, handles + [BlockHandle(offset, 0)], blocks + [[]])
      requires |f.contents| < MAX32 ==> forall p :: p in added ==> Answer(f.contents, p.0, p.1)
      ensures FilterKept(c, file, f, handles, blocks)
    {
      hide Answer, InFile;
      forall a, b | 0 <= a < |blocks| && 0 <= b < |blocks[a]|
        ensures (handles[a].offset, blocks[a][b].key.user) in added
      {
        assert (blocks + [[]])[a][b] == blocks[a][b] && (handles + [BlockHandle(offset, 0)])[a] == handles[a];
      }
    }

    /** The last index entry, for which no key follows: it is cut at the first byte that can grow. */
    method FinishIndex()
      requires Growing(index, blocks, lastKey) && Pointed() && (pendingIndexEntry <==> blocks != [])
      requires indexBlock.Valid() && indexBlock.es == KVs(IndexEntries(index))
      modifies this`index, this`pendingIndexEntry, indexBlock
      ensures WellSeparated(index, blocks) && Handles(index) == handles
      ensures if old(pendingIndexEntry) then Appended(old(index), index, pendingHandle) && lastKey.Some?
              else index == old(index)
      ensures old(pendingIndexEntry) ==>
                var last, sep := lastKey.value.user, index[|index| - 1].key;
                && (forall i :: 0 <= i < |last| - 1 && last[i] != 0xff && (forall j :: 0 <= j < i ==> last[j] == 0xff)
                      ==> sep == InternalKey(last[..i] + [last[i] + 1], 0xff_ffff_ffff_ffff, TypeValue))
                && ((forall i :: 0 <= i < |last| - 1 ==> last[i] == 0xff) ==> sep == lastKey.value)
      ensures indexBlock.Valid() && indexBlock.es == KVs(IndexEntries(index))
    {
      hide Growing, Before, WellSeparated, BlockBuilder.Valid, KVs, EncodeKey, EncodeHandle;
      NothingYet(index, blocks, lastKey);
      KeyKnown(index, blocks, lastKey);
      if pendingIndexEntry {
        var successor := FindShortInternalSuccessor(lastKey.value);
        ghost var entry := IndexEntry(successor, pendingHandle);
        LastEntry(index, blocks, lastKey, entry);
        indexBlock.Add(EncodeKey(successor), EncodeHandle(pendingHandle));
        IndexAdds(index, entry);
        index := index + [entry];
        pendingIndexEntry := false;
      }
    }
  }
}
