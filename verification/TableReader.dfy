/** Reading a table file (table/table.cc): the footer leads to the index and the filter; one
    seek in the index and one in the block it points at decide a point lookup, and the
    two-level iterator runs over all entries.
 */
module TableReaders {
  import opened Blocks
  import opened Bloom
  import opened Coding
  import opened Comparator
  import opened Cursors
  import opened Dbformat
  import opened FilterBlocks
  import opened Options
  import opened TableFormats
  import opened Tables
  import opened TwoLevels
  import BI = BlockIters
  import LF = LogFormat

  lemma {:induction false} SeparatorsIncrease(index: seq<IndexEntry>, blocks: seq<seq<Entry>>, i: nat, j: nat)
    requires WellSeparated(index, blocks) && i < j < |index|
    ensures Before(index[i].key, index[j].key) && Before(index[i].key, blocks[j][0].key)
    decreases j
  {
    hide Before, Sorted;
    OrderLaws();
    assert Separates(index[j - 1].key, blocks[j - 1], FirstKey(blocks, j));
    assert Separates(index[j].key, blocks[j], FirstKey(blocks, j + 1));
    FirstBeforeLast(blocks[j]);
    if i < j - 1 {
      SeparatorsIncrease(index, blocks, i, j - 1);
    }
  }

  lemma FirstBeforeLast(block: seq<Entry>)
    requires block != [] && Sorted(block)
    ensures forall k :: 0 <= k < |block| ==>
              NotAfter(block[k].key, block[|block| - 1].key) && NotAfter(block[0].key, block[k].key)
  {
    hide Before;
    OrderLaws();
    forall k | 0 <= k < |block|
      ensures NotAfter(block[k].key, block[|block| - 1].key) && NotAfter(block[0].key, block[k].key)
    {
      assert k < |block| - 1 ==> Before(block[k].key, block[|block| - 1].key);
      assert k > 0 ==> Before(block[0].key, block[k].key);
    }
  }

  /** The index of a finished table divides its blocks, so the two-level iterator is a
      cursor over everything that was added. */
  lemma TableDivides(index: seq<IndexEntry>, blocks: seq<seq<Entry>>)
    requires WellSeparated(index, blocks)
    ensures Divides(IndexEntries(index), blocks)
  {
    hide Before, Sorted, Separates;
    OrderLaws();
    var es := IndexEntries(index);
    forall i, j | 0 <= i < j < |es|
      ensures Before(es[i].key, es[j].key)
    {
      SeparatorsIncrease(index, blocks, i, j);
    }
    IndexSorted(es);
    forall i, j | 0 <= i < |blocks| && 0 <= j < |blocks[i]|
      ensures NotAfter(blocks[i][j].key, es[i].key)
      ensures i > 0 ==> Before(es[i - 1].key, blocks[i][j].key)
    {
      BlockKey(index, blocks, i, j);
      if i > 0 { SeparatorsIncrease(index, blocks, i - 1, i); }
    }
  }

  lemma IndexSorted(es: seq<Entry>)
    requires forall i, j :: 0 <= i < j < |es| ==> Before(es[i].key, es[j].key)
    ensures Sorted(es)
  {
  }

  lemma BlockKey(index: seq<IndexEntry>, blocks: seq<seq<Entry>>, i: nat, j: nat)
    requires WellSeparated(index, blocks) && i < |blocks| && j < |blocks[i]|
    ensures NotAfter(blocks[i][j].key, index[i].key) && NotAfter(blocks[i][0].key, blocks[i][j].key)
  {
    hide Before, Sorted;
    OrderLaws();
    assert Separates(index[i].key, blocks[i], FirstKey(blocks, i + 1));
    FirstBeforeLast(blocks[i]);
  }

  /** If block i has no entry at or past k though its index key is, then the first entry at
      or past k is for a larger user key. */
  lemma NothingHere(index: seq<IndexEntry>, blocks: seq<seq<Entry>>, k: InternalKey, i: nat)
    requires WellSeparated(index, blocks) && i < |index| && !Before(index[i].key, k)
    requires forall j :: 0 <= j < |blocks[i]| ==> Before(blocks[i][j].key, k)
    ensures i + 1 < |blocks| ==> Less(k.user, blocks[i + 1][0].key.user)
  {
    hide Less;
    if i + 1 < |blocks| {
      var sep, last, next := index[i].key, blocks[i][|blocks[i]| - 1].key, blocks[i + 1][0].key;
      assert Separates(sep, blocks[i], FirstKey(blocks, i + 1));
      assert blocks[i + 1] != [];
      assert sep != last;
      LessTransitive(k.user, sep.user, next.user);
      LessTransitive(sep.user, k.user, sep.user);
      LessIsStrict(sep.user, k.user);
      assert LessEq(k.user, sep.user);
    }
  }

  // ---- blocks read back ----

  /** BytewiseComparator on bytes */
  function ByteCompare(a: Bytes, b: Bytes): int {
    if a == b then 0 else if Less(a, b) then -1 else 1
  }

  lemma ByteCompareIsLawful()
    ensures BI.Lawful(ByteCompare)
  {
    hide Less;
    var rank, unrank := OrderByRank();
    forall a, b
      ensures (ByteCompare(a, b) == 0 <==> a == b) && (ByteCompare(a, b) < 0 <==> ByteCompare(b, a) > 0)
    {
      assert unrank(rank(a)) == a && unrank(rank(b)) == b;
    }
  }

  /** The 32-bit offsets inside blocks do not wrap. */
  predicate Small(plan: BI.Plan) {
    |Raw(plan)| < MAX32
  }

  /** So do those of a table's blocks, its filter included. */
  ghost predicate Fits(file: Bytes, made: Made) {
    && |file| < MAX64
    && (forall i :: 0 <= i < |made.plans| ==> Small(made.plans[i]))
    && Small(made.indexPlan) && Small(made.metaPlan)
    && (made.filter.Some? ==> |made.filter.value.contents| < MAX32)
  }

  lemma PackedIsBuilt(cmp: BI.Order, plan: BI.Plan, kvs: seq<KV>)
    requires Packed(plan, kvs) && Small(plan) && BI.Lawful(cmp) && BI.Increasing(cmp, kvs)
    ensures BI.Built(cmp, Raw(plan), plan)
  {
    hide EntryOk, RestartOk;
  }

  lemma BlockIsBuilt(plan: BI.Plan, es: seq<Entry>)
    requires Packed(plan, KVs(es)) && Small(plan) && Sorted(es)
    ensures BI.Built(InternalCompare, Raw(plan), plan)
  {
    hide Packed, Small, InternalCompare, Sorted;
    CompareIsLawful();
    KVsIncrease(es);
    PackedIsBuilt(InternalCompare, plan, KVs(es));
  }

  lemma MetaIsBuilt(plan: BI.Plan, kvs: seq<KV>)
    requires Packed(plan, kvs) && Small(plan) && |kvs| <= 1
    ensures BI.Built(ByteCompare, Raw(plan), plan)
  {
    hide Packed, Small, ByteCompare;
    ByteCompareIsLawful();
    PackedIsBuilt(ByteCompare, plan, kvs);
  }

  /** Where the block iterator lands is the lower bound. */
  lemma SeekIsBound(es: seq<Entry>, k: InternalKey, at: nat)
    requires at <= |es|
    requires forall j :: 0 <= j < at && j < |es| ==> InternalCompare(KVs(es)[j].key, EncodeKey(k)) < 0
    requires at < |es| ==> InternalCompare(KVs(es)[at].key, EncodeKey(k)) >= 0
    ensures at == LowerBound(es, k)
  {
    hide InternalCompare, EncodeKey, Before;
    forall j | 0 <= j < |es|
      ensures InternalCompare(KVs(es)[j].key, EncodeKey(k)) < 0 <==> Before(es[j].key, k)
    {
      CompareEncoded(es[j].key, k);
    }
  }

  class Table {
    const codec: Codec
    const file: Bytes
    const indexContents: Bytes
    const policy: BloomFilterPolicy?
    const filter: FilterBlockReader?
    ghost const intact: bool  // the file is one a TableBuilder made
    ghost const made: Made
    ghost const name: Bytes

    ghost predicate Valid() {
      && (filter != null ==> filter.Valid() && policy != null)
      && (intact ==>
            && GoodCodec(codec) && TableBytes(codec, name, file, made) && Fits(file, made)
            && indexContents == Raw(made.indexPlan)
            && (filter != null ==> made.filter.Some? && filter.contents == made.filter.value.contents))
    }

    constructor (codec: Codec, file: Bytes, indexContents: Bytes, policy: BloomFilterPolicy?,
                 filter: FilterBlockReader?,
                 ghost intact: bool, ghost made: Made, ghost name: Bytes)
      requires filter != null ==> filter.Valid() && policy != null
      requires intact ==>
                 && GoodCodec(codec) && TableBytes(codec, name, file, made) && Fits(file, made)
                 && indexContents == Raw(made.indexPlan)
                 && (filter != null ==> made.filter.Some? && filter.contents == made.filter.value.contents)
      ensures Valid() && this.intact == intact && this.made == made && this.filter == filter && this.policy == policy
    {
      this.codec, this.file, this.indexContents := codec, file, indexContents;
      this.policy, this.filter := policy, filter;
      this.intact, this.made, this.name := intact, made, name;
    }

    /** Table::Open: errors for a file that is too short, a bad footer and a bad index block;
        without a filter that can be read the table does without one. */
    static method Open(codec: Codec, file: Bytes, paranoid: bool, policy: BloomFilterPolicy?, name: Bytes,
                       ghost intact: bool, ghost made: Made)
      returns (table: Table?)
      requires intact ==> GoodCodec(codec) && TableBytes(codec, name, file, made) && Fits(file, made)
      ensures table != null ==> table.Valid() && table.intact == intact && table.made == made
      ensures intact ==> table != null && (made.filter.Some? && policy != null ==> table.filter != null)
    {
      hide GoodCodec, TableBytes, Fits, FilterBlockReader.Valid, Raw;
      if |file| < FOOTER {
        if intact {
          FooterThere(codec, name, file, made);
        }
        return null;
      }
      if intact {
        FooterThere(codec, name, file, made);
        PartsThere(codec, name, file, made);
      }
      var footer := DecodeFooter(file[|file| - FOOTER..]);
      if footer == None {
        return null;
      }
      var indexContents := ReadBlock(codec, paranoid, file, footer.value.index);
      if indexContents == None {
        return null;
      }
      var filter := ReadMeta(codec, file, paranoid, policy, name, footer.value, intact, made);
      table := new Table(codec, file, indexContents.value, policy, filter, intact, made, name);
    }

    static lemma FooterThere(c: Codec, name: Bytes, file: Bytes, made: Made)
      requires TableBytes(c, name, file, made) && Fits(file, made)
      ensures |file| >= FOOTER && DecodeFooter(file[|file| - FOOTER..]) == Some(made.footer)
    {
      hide WellSeparated, Layout, FilterInFile, Packed, InFile, Small, EncodeFooter, DecodeFooter;
      HandleInFile(c, file, made.footer.index, Raw(made.indexPlan));
      HandleInFile(c, file, made.footer.metaindex, Raw(made.metaPlan));
      FooterRoundTrip(made.footer);
    }

    static lemma HandleInFile(c: Codec, file: Bytes, h: BlockHandle, raw: Bytes)
      requires InFile(c, file, h, raw) && |file| < MAX64
      ensures HandleFits(h)
    {
      hide Framed, Unstore;
    }

    /** What the footer leads to. */
    static lemma PartsThere(c: Codec, name: Bytes, file: Bytes, made: Made)
      requires GoodCodec(c) && TableBytes(c, name, file, made) && Fits(file, made)
      ensures LF.Lawful(c.extend)
      ensures InFile(c, file, made.footer.index, Raw(made.indexPlan))
      ensures InFile(c, file, made.footer.metaindex, Raw(made.metaPlan))
      ensures BI.Built(ByteCompare, Raw(made.metaPlan), made.metaPlan)
      ensures made.metaPlan.es == MetaEntries(name, made.filter)
      ensures made.filter.Some? ==> InFile(c, file, made.filter.value.handle, made.filter.value.contents)
      ensures made.filter.Some? ==> HandleFits(made.filter.value.handle)
    {
      hide WellSeparated, Layout, InFile, Small, EncodeFooter, LF.Lawful, BI.Built, ByteCompare, NoFalseNegatives;
      MetaIsBuilt(made.metaPlan, MetaEntries(name, made.filter));
      if made.filter.Some? {
        HandleInFile(c, file, made.filter.value.handle, made.filter.value.contents);
      }
    }

    /** ReadMeta and ReadFilter */
    static method ReadMeta(codec: Codec, file: Bytes, paranoid: bool, policy: BloomFilterPolicy?, name: Bytes,
                           footer: Footer,
                           ghost intact: bool, ghost made: Made)
      returns (filter: FilterBlockReader?)
      requires intact ==>
                 && GoodCodec(codec) && TableBytes(codec, name, file, made) && Fits(file, made) && footer == made.footer
      ensures filter != null ==> filter.Valid() && policy != null
      ensures intact && filter != null ==> made.filter.Some? && filter.contents == made.filter.value.contents
      ensures intact && made.filter.Some? && policy != null ==> filter != null
    {
      hide GoodCodec, TableBytes, Fits, FilterBlockReader.Valid, Raw, InFile, BI.Built, TakeHandle, EncodeHandle,
        LF.Lawful;
      if intact {
        PartsThere(codec, name, file, made);
        if made.filter.Some? {
          HandleRoundTrip(made.filter.value.handle, []);
          assert EncodeHandle(made.filter.value.handle) + [] == EncodeHandle(made.filter.value.handle);
        }
      }
      filter := null;
      if policy == null {
        return;
      }
      var contents := ReadBlock(codec, paranoid, file, footer.metaindex);
      if contents == None {
        return;
      }
      var iter := BI.NewIterator(ByteCompare, contents.value, intact, made.metaPlan);
      if iter == null {
        return;
      }
      iter.Seek(name);
      if intact && made.filter.Some? {
        assert iter.plan.es[0] == KV(name, EncodeHandle(made.filter.value.handle));
        iter.ValidIff();
      }
      if iter.Valid() && iter.key == name {
        if intact {
          iter.KeyIs();
        }
        var v := TakeHandle(iter.Current().value);
        if v.Some? {
          var block := ReadBlock(codec, paranoid, file, v.value.handle);
          if block.Some? {
            filter := new FilterBlockReader(block.value);
          }
        }
      }
    }

    /** What is handed to handle_result: the first entry of the table at or past k, or nothing;
        and not nothing if that entry is for k's user key. */
    ghost predicate Found(k: InternalKey, found: Option<KV>) {
      var all, p := Flat(made.blocks), LowerBound(Flat(made.blocks), k);
      && (found.Some? ==> p < |all| && found == Some(KV(EncodeKey(all[p].key), all[p].value)))
      && (p < |all| && all[p].key.user == k.user ==> found == Some(KV(EncodeKey(all[p].key), all[p].value)))
    }

    /** Table::InternalGet */
    method InternalGet(verify: bool, k: InternalKey) returns (found: Option<KV>)
      requires Valid()
      ensures intact ==> Found(k, found)
    {
      hide Valid, TableBytes, Fits, FilterBlockReader.Valid, BI.Built, EncodeKey, InternalCompare, LowerBound, Flat,
        Found,
        TakeHandle, Answer, AtIndex;
      found := None;
      var target := EncodeKey(k);
      FilterReady();
      if intact {
        IndexThere();
      }
      var iiter := BI.NewIterator(InternalCompare, indexContents, intact, made.indexPlan);
      if iiter == null {
        return;
      }
      iiter.Seek(target);
      ghost var i := iiter.at;
      if intact {
        iiter.ValidIff();
        IndexLands(k, i);
      }
      if !iiter.Valid() {
        return;
      }
      var handle := TakeHandle(iiter.Current().value);
      if handle == None {
        return;
      }
      if filter != null {
        var mayMatch := filter.KeyMayMatch(policy, handle.value.handle.offset, k.user);
        if !mayMatch {
          if intact {
            FilterSaysNo(k, i);
          }
          return;
        }
      }
      found := BlockGet(verify, k, i, handle.value.handle);
    }

    /** Entry i of the index is the first at or past k. */
    ghost predicate AtIndex(k: InternalKey, i: nat) {
      i < |made.index| && i == LowerBound(IndexEntries(made.index), k)
    }

    lemma FilterReady()
      requires Valid()
      ensures filter != null ==> filter.Valid() && policy != null
    {
    }

    lemma IndexThere()
      requires Valid() && intact
      ensures BI.Built(InternalCompare, indexContents, made.indexPlan)
      ensures made.indexPlan.es == KVs(IndexEntries(made.index)) && Divides(IndexEntries(made.index), made.blocks)
    {
      hide GoodCodec, Layout, InFile, Packed, FilterInFile, EncodeFooter, BI.Built, WellSeparated, Small, Sorted;
      TableDivides(made.index, made.blocks);
      BlockIsBuilt(made.indexPlan, IndexEntries(made.index));
      PackedEntries(made.indexPlan, KVs(IndexEntries(made.index)));
    }

    static lemma PackedEntries(plan: BI.Plan, kvs: seq<KV>)
      requires Packed(plan, kvs)
      ensures plan.es == kvs
    {
    }

    /** The seek in the index finds the block to look in, or there is nothing at or past k. */
    lemma IndexLands(k: InternalKey, i: nat)
      requires Valid() && intact && i <= |made.indexPlan.es|
      requires forall j :: 0 <= j < i ==> InternalCompare(made.indexPlan.es[j].key, EncodeKey(k)) < 0
      requires i < |made.indexPlan.es| ==> InternalCompare(made.indexPlan.es[i].key, EncodeKey(k)) >= 0
      ensures |made.indexPlan.es| == |made.index|
      ensures i == |made.index| ==> Found(k, None)
      ensures i < |made.index| ==>
                && AtIndex(k, i)
                && TakeHandle(made.indexPlan.es[i].value) == Some(HandleCut(made.index[i].handle, []))
    {
      hide Valid, BI.Built, InternalCompare, EncodeKey, LowerBound, Flat, Divides, EncodeHandle, TakeHandle;
      IndexThere();
      var es := IndexEntries(made.index);
      SeekIsBound(es, k, i);
      var p := FirstPast(es, made.blocks, k);
      if i < |made.index| {
        HandleThere(i);
        HandleRoundTrip(made.index[i].handle, []);
        assert EncodeHandle(made.index[i].handle) + [] == EncodeHandle(made.index[i].handle);
      }
    }

    lemma HandleThere(i: nat)
      requires Valid() && intact && i < |made.index|
      ensures |made.index| == |made.blocks| == |made.plans| && HandleFits(made.index[i].handle)
      ensures BlockInFile(codec, file, made.index[i].handle, made.plans[i], KVs(made.blocks[i]))
      ensures LF.Lawful(codec.extend) && WellSeparated(made.index, made.blocks) && Small(made.plans[i])
    {
      hide InFile, Packed, FilterInFile, EncodeFooter, Separates, LF.Lawful, Sorted;
      assert BlockInFile(codec, file, Handles(made.index)[i], made.plans[i], KVs(made.blocks[i]));
      HandleInFile(codec, file, made.index[i].handle, Raw(made.plans[i]));
    }

    lemma FilterSaysNo(k: InternalKey, i: nat)
      requires Valid() && intact && AtIndex(k, i) && filter != null
      requires !Answer(filter.contents, made.index[i].handle.offset, k.user)
      ensures Found(k, None)
    {
      hide BI.Built, EncodeKey, LowerBound, Flat, Divides, Answer, WellSeparated, Layout, InFile, Packed,
        EncodeFooter, Before,
        Start;
      IndexThere();
      HandleThere(i);
      var p := FirstPast(IndexEntries(made.index), made.blocks, k);
      IndexBounds(IndexEntries(made.index), k);
      WhatIsThere(made.index, made.blocks, k, i, p);
      NotMissed(AsFilter(filter.contents), made.index, made.blocks, k, i);
    }

    /** The seek in the block the index points at. */
    method BlockGet(verify: bool, k: InternalKey, ghost i: nat, h: BlockHandle) returns (found: Option<KV>)
      requires Valid() && (intact ==> AtIndex(k, i) && h == made.index[i].handle)
      ensures intact ==> Found(k, found)
    {
      hide Valid, BI.Built, EncodeKey, InternalCompare, LowerBound, Flat, Found, AtIndex, InFile, KVs;
      found := None;
      ghost var plan := if intact then PlanOf(i) else made.indexPlan;
      if intact {
        BlockThere(k, i);
      }
      var contents := ReadBlock(codec, verify, file, h);
      if contents == None {
        return;
      }
      var blockIter := BI.NewIterator(InternalCompare, contents.value, intact, plan);
      if blockIter == null {
        return;
      }
      blockIter.Seek(EncodeKey(k));
      if intact {
        blockIter.ValidIff();
        BlockLands(k, i, blockIter.at);
      }
      if blockIter.Valid() {
        found := Some(blockIter.Current());
      }
    }

    ghost function PlanOf(i: nat): BI.Plan {
      if i < |made.plans| then made.plans[i] else made.indexPlan
    }

    lemma BlockThere(k: InternalKey, i: nat)
      requires Valid() && intact && AtIndex(k, i)
      ensures LF.Lawful(codec.extend) && InFile(codec, file, made.index[i].handle, Raw(PlanOf(i)))
      ensures i < |made.index| == |made.blocks|
      ensures BI.Built(InternalCompare, Raw(PlanOf(i)), PlanOf(i)) && PlanOf(i).es == KVs(made.blocks[i])
    {
      hide Valid, InFile, Packed, BI.Built, Small, KVs, Sorted, Separates, LowerBound, LF.Lawful;
      HandleThere(i);
      BlockIsBuilt(made.plans[i], made.blocks[i]);
      PackedEntries(made.plans[i], KVs(made.blocks[i]));
    }

    lemma BlockLands(k: InternalKey, i: nat, at: nat)
      requires Valid() && intact && AtIndex(k, i) && i < |made.blocks| && at <= |made.blocks[i]|
      requires forall j :: 0 <= j < at ==> InternalCompare(KVs(made.blocks[i])[j].key, EncodeKey(k)) < 0
      requires at < |made.blocks[i]| ==> InternalCompare(KVs(made.blocks[i])[at].key, EncodeKey(k)) >= 0
      ensures Found(k, if at < |made.blocks[i]| then Some(KVs(made.blocks[i])[at]) else None)
    {
      hide Valid, BI.Built, EncodeKey, InternalCompare, LowerBound, Flat, Divides, WellSeparated, Before, Start;
      IndexThere();
      HandleThere(i);
      SeekIsBound(made.blocks[i], k, at);
      var p := FirstPast(IndexEntries(made.index), made.blocks, k);
      IndexBounds(IndexEntries(made.index), k);
      WhatIsThere(made.index, made.blocks, k, i, p);
    }

    static lemma FirstPast(es: seq<Entry>, blocks: seq<seq<Entry>>, k: InternalKey) returns (p: nat)
      requires Divides(es, blocks)
      ensures p == LowerBound(Flat(blocks), k)
      ensures var i := LowerBound(es, k);
              p == if i == |es| then |Flat(blocks)| else Start(blocks, i) + LowerBound(blocks[i], k)
    {
      hide Before, Flat, Start, LowerBound;
      var i := LowerBound(es, k);
      IndexBounds(es, k);
      forall q | 0 <= q < |Flat(blocks)|
        ensures if i == |es| then Before(Flat(blocks)[q].key, k)
                else Before(Flat(blocks)[q].key, k) <==> q < Start(blocks, i) + LowerBound(blocks[i], k)
      {
        SeekDivides(es, blocks, k, q);
      }
      if i == |es| {
        p := |Flat(blocks)|;
      } else {
        BoundLength(blocks[i], k);
        NextStart(blocks, i);
        p := Start(blocks, i) + LowerBound(blocks[i], k);
      }
      BoundIs(Flat(blocks), k, p);
    }

    /** The entry at p is the one the block seek finds, or it is for a larger user key. */
    static lemma WhatIsThere(index: seq<IndexEntry>, blocks: seq<seq<Entry>>, k: InternalKey, i: nat, p: nat)
      requires WellSeparated(index, blocks) && i < |index| && !Before(index[i].key, k)
      requires p == Start(blocks, i) + LowerBound(blocks[i], k)
      ensures i < |blocks| && LowerBound(blocks[i], k) <= |blocks[i]|
      ensures LowerBound(blocks[i], k) < |blocks[i]| ==>
                p < |Flat(blocks)| && Flat(blocks)[p] == blocks[i][LowerBound(blocks[i], k)]
      ensures LowerBound(blocks[i], k) == |blocks[i]| && p < |Flat(blocks)| ==> Flat(blocks)[p].key.user != k.user
    {
      hide Before, Less, Flat, Start, LowerBound, Separates, Sorted;
      BoundLength(blocks[i], k);
      if LowerBound(blocks[i], k) < |blocks[i]| {
        FlatAt(blocks, i, LowerBound(blocks[i], k));
      } else if p < |Flat(blocks)| {
        IndexBounds(blocks[i], k);
        NothingHere(index, blocks, k, i);
        NextStart(blocks, i);
        FlatAt(blocks, i + 1, 0);
        LessIsStrict(k.user, blocks[i + 1][0].key.user);
      }
    }

    /** When the filter says no, no entry of the block is for k's user key. */
    static lemma NotMissed(mayMatch: Filter, index: seq<IndexEntry>, blocks: seq<seq<Entry>>, k: InternalKey, i: nat)
      requires NoFalseNegatives(mayMatch, index, blocks) && i < |blocks| && !mayMatch(index[i].handle, k.user)
      ensures forall j :: 0 <= j < |blocks[i]| ==> blocks[i][j].key.user != k.user
    {
    }
  }

  /** From the entries to the bytes of a file and back: a lookup in the table gives the first
      entry at or past k, or nothing, and not nothing if that entry is for k's user key.
      Offsets in blocks have 32 bits, so this needs blocks of less than 4 GB. */
  method BuildAndGet(codec: Codec, name: Bytes, blockSize: nat, interval: nat, policy: BloomFilterPolicy?,
                     verify: bool, es: seq<Entry>, k: InternalKey)
    returns (file: Bytes, found: Option<KV>, ghost made: Made)
    requires GoodCodec(codec) && interval >= 1 && (policy != null ==> policy.Valid()) && Sorted(es)
    ensures TableBytes(codec, name, file, made) && Flat(made.blocks) == es
    ensures Fits(file, made) ==>
              var p := LowerBound(es, k);
              && (found.Some? ==> p < |es| && found == Some(KV(EncodeKey(es[p].key), es[p].value)))
              && (p < |es| && es[p].key.user == k.user ==> found == Some(KV(EncodeKey(es[p].key), es[p].value)))
  {
    file, made := Build(codec, name, blockSize, interval, policy, es);
    hide TableBytes, Fits, GoodCodec, Flat, LowerBound, EncodeKey, Table.Valid;
    ghost var intact := Fits(file, made);
    var table := Table.Open(codec, file, verify, policy, name, intact, made);
    found := None;
    if table != null {
      found := table.InternalGet(verify, k);
    }
  }

  method Build(codec: Codec, name: Bytes, blockSize: nat, interval: nat, policy: BloomFilterPolicy?, es: seq<Entry>)
    returns (file: Bytes, ghost made: Made)
    requires GoodCodec(codec) && interval >= 1 && (policy != null ==> policy.Valid()) && Sorted(es)
    ensures TableBytes(codec, name, file, made) && Flat(made.blocks) == es && (made.filter.Some? <==> policy != null)
  {
    hide TableBytes, GoodCodec, Flat, Before, TableBuilder.Valid, TableBuilder.All;
    var builder := new TableBuilder(codec, name, blockSize, interval, policy);
    NoEntries();
    for i := 0 to |es|
      invariant builder.Valid() && !builder.closed
      invariant fresh(builder) && fresh(builder.dataBlock) && fresh(builder.indexBlock)
      invariant builder.filterBlock != null ==> fresh(builder.filterBlock)
      invariant Flat(builder.All()) == es[..i]
      invariant builder.lastKey == if i == 0 then None else Some(es[i - 1].key)
    {
      builder.Add(es[i].key, es[i].value);
      assert es[..i] + [es[i]] == es[..i + 1];
    }
    made := builder.Finish();
    file := builder.file;
    assert es[..|es|] == es;
  }

  lemma NoEntries()
    ensures Flat([]) == []
  {
  }
}
