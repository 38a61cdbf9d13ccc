/** The filter block (table/filter_block.cc): one filter for every 2 KB of block offsets. */
module FilterBlocks {
  import opened Bloom
  import opened Blocks
  import opened BlockIters
  import opened Coding
  import opened Comparator

  const BASE_LG: Byte := 11
  const BASE: nat := 2048

  // ---- what the reader answers ----

  /** Four bytes as a number. */
  function WordAt(s: Bytes, p: nat): nat
    requires p + 4 <= |s|
  {
    Unfixed(s[p..p + 4])
  }

  /** block_offset >> base_lg */
  function Shifted(offset: nat, lg: nat): nat {
    offset / Positive(Power(2, lg))
  }

  function Positive(n: nat): (r: nat)
    ensures r > 0
  {
    if n == 0 then 1 else n
  }

  /** FilterBlockReader::KeyMayMatch on a reader of these contents. */
  predicate Answer(contents: Bytes, offset: nat, key: Bytes) {
    var n := |contents|;
    n < 5
    || var offsets := WordAt(contents, n - 5);
       offsets > n - 5
       || var index := Shifted(offset, contents[n - 1]);
          index >= (n - 5 - offsets) / 4
          || var start, limit := WordAt(contents, offsets + 4 * index), WordAt(contents, offsets + 4 * index + 4);
             if start <= limit && limit <= offsets then MayMatch(key, contents[start..limit]) else start != limit
  }

  class FilterBlockReader {
    const contents: Bytes
    const offset: nat  // offset_, counted from data_
    const num: nat
    const baseLg: nat

    ghost predicate Valid() {
      && (num > 0 ==>
            && |contents| >= 5 && offset == WordAt(contents, |contents| - 5)
            && offset + 4 * num <= |contents| - 5 && baseLg == contents[|contents| - 1])
      && num == (if |contents| < 5 || WordAt(contents, |contents| - 5) > |contents| - 5 then 0
                 else (|contents| - 5 - WordAt(contents, |contents| - 5)) / 4)
    }

    constructor (contents: Bytes)
      ensures Valid() && this.contents == contents
    {
      this.contents := contents;
      offset, num, baseLg := 0, 0, 0;
      var n := |contents|;
      if n >= 5 {
        baseLg := contents[n - 1];
        var lastWord := Unfixed(contents[n - 5..n - 1]);
        if lastWord <= n - 5 {
          offset := lastWord;
          num := (n - 5 - lastWord) / 4;
        }
      }
    }

    method KeyMayMatch(policy: BloomFilterPolicy, blockOffset: nat, key: Bytes) returns (r: bool)
      requires Valid()
      ensures r == Answer(contents, blockOffset, key)
    {
      hide MayMatch, Shifted, Unfixed;
      var index := Shifted(blockOffset, baseLg);
      if index < num {
        var start := Unfixed(contents[offset + index * 4..offset + index * 4 + 4]);
        var limit := Unfixed(contents[offset + index * 4 + 4..offset + index * 4 + 8]);
        if start <= limit && limit <= offset {
          r := policy.KeyMayMatch(key, contents[start..limit]);
          return;
        } else if start == limit {
          return false;
        }
      }
      return true;
    }
  }

  // ---- what the builder builds ----

  function EndOf(starts: seq<nat>, i: nat, whole: nat): nat {
    if i + 1 < |starts| then starts[i + 1] else whole
  }

  /** Filter i stands between its offset and the next, and is for the keys of its set. */
  ghost predicate FilterOk(data: Bytes, at: seq<nat>, sets: seq<seq<Bytes>>, k: nat, i: nat)
    requires |at| == |sets| && i < |sets|
  {
    var end := EndOf(at, i, |data|);
    && at[i] <= end <= |data|
    && if sets[i] == [] then at[i] == end else IsFilter(data[at[i]..end], sets[i], k)
  }

  ghost predicate FiltersOk(data: Bytes, at: seq<nat>, sets: seq<seq<Bytes>>, k: nat) {
    |at| == |sets| && forall i: nat :: i < |sets| ==> FilterOk(data, at, sets, k, i)
  }

  /** filter_offsets_ */
  function Offsets(at: seq<nat>): (r: seq<nat>)
    ensures |r| == |at| && forall i :: 0 <= i < |at| ==> r[i] == Low32(at[i])
  {
    seq(|at|, i requires 0 <= i < |at| => Low32(at[i]))
  }

  /** The whole block: the filters, where they start, where that table starts, and the base. */
  function BlockOf(data: Bytes, at: seq<nat>): Bytes {
    data + FixedAll(Offsets(at) + [Low32(|data|)]) + [BASE_LG]
  }

  /** A block of one filter: where it starts, where that table starts, and 11 for 2 KB of offsets. */
  lemma OneFilterBytes(filter: Bytes)
    requires |filter| < 0x1_0000_0000
    ensures var n := |filter|;
            BlockOf(filter, [0])
            == filter + ([0, 0, 0, 0] + [n % 0x100, n / 0x100 % 0x100, n / 0x1_0000 % 0x100, n / 0x100_0000]) + [11]
  {
    hide Fixed, Low32;
    var n := |filter|;
    Low32Small(0);
    Low32Small(n);
    FixedBytes(0);
    FixedBytes(n);
    assert Offsets([0]) + [n] == [0, n] && [0, n][..1] == [0] && [0][..0] == [];
    assert FixedAll([0]) == FixedAll([]) + Fixed(0, 4);
    assert FixedAll([0, n]) == FixedAll([0]) + Fixed(n, 4);
  }

  lemma FilterAdded(data: Bytes, at: seq<nat>, sets: seq<seq<Bytes>>, k: nat, keys: seq<Bytes>, filter: Bytes)
    requires FiltersOk(data, at, sets, k)
    requires if keys == [] then filter == [] else IsFilter(filter, keys, k)
    ensures FiltersOk(data + filter, at + [|data|], sets + [keys], k)
    ensures Offsets(at + [|data|]) == Offsets(at) + [Low32(|data|)]
  {
    hide IsFilter, Low32;
    var data', at', sets' := data + filter, at + [|data|], sets + [keys];
    forall i: nat | i < |sets'|
      ensures FilterOk(data', at', sets', k, i)
    {
      if i < |sets| {
        assert FilterOk(data, at, sets, k, i);
        var end := EndOf(at, i, |data|);
        assert EndOf(at', i, |data'|) == end && at'[i] == at[i];
        assert data'[at[i]..end] == data[at[i]..end];
      } else {
        assert EndOf(at', i, |data'|) == |data'| && at'[i] == |data|;
        assert data'[|data|..|data'|] == filter;
      }
    }
  }

  /** The key strings laid end to end. */
  ghost predicate Flattened(keys: Bytes, start: seq<nat>, pending: seq<Bytes>) {
    |start| == |pending| && forall i: nat :: i < |start| ==> KeyAt(keys, start, pending, i)
  }

  ghost predicate KeyAt(keys: Bytes, start: seq<nat>, pending: seq<Bytes>, i: nat)
    requires i < |start| == |pending|
  {
    start[i] <= EndOf(start, i, |keys|) <= |keys| && keys[start[i]..EndOf(start, i, |keys|)] == pending[i]
  }

  lemma KeyAdded(keys: Bytes, start: seq<nat>, pending: seq<Bytes>, key: Bytes)
    requires Flattened(keys, start, pending)
    ensures Flattened(keys + key, start + [|keys|], pending + [key])
  {
    var keys', start', pending' := keys + key, start + [|keys|], pending + [key];
    forall i: nat | i < |start'|
      ensures KeyAt(keys', start', pending', i)
    {
      if i < |start| {
        assert KeyAt(keys, start, pending, i);
        assert keys'[start[i]..EndOf(start, i, |keys|)] == keys[start[i]..EndOf(start, i, |keys|)];
      } else {
        assert keys'[|keys|..] == key;
      }
    }
  }

  /** Every key that was added is in the set for the offset it was added under. */
  ghost predicate Collected(added: set<(nat, Bytes)>, sets: seq<seq<Bytes>>, pending: seq<Bytes>) {
    forall p :: p in added ==> InSet(p.0 / BASE, p.1, sets, pending)
  }

  ghost predicate InSet(i: nat, key: Bytes, sets: seq<seq<Bytes>>, pending: seq<Bytes>) {
    i <= |sets| && key in (if i < |sets| then sets[i] else pending)
  }

  // ---- reading back ----

  lemma OneWord(data: Bytes, words: seq<nat>, i: nat)
    requires i < |words|
    ensures data + FixedAll(words[..i]) + Fixed(words[i], 4) == data + FixedAll(words[..i + 1])
  {
    hide Fixed;
    assert words[..i + 1][..i] == words[..i];
  }

  lemma WordReads(data: Bytes, words: seq<nat>, j: nat)
    requires j < |words| && words[j] < MAX32
    ensures |FixedAll(words)| == 4 * |words|
    ensures WordAt(data + FixedAll(words) + [BASE_LG], |data| + 4 * j) == words[j]
  {
    hide FixedAll, Fixed, Unfixed;
    AllLength(words);
    PointAt(words, j);
    Fixed32RoundTrip(words[j]);
    var p := |data| + 4 * j;
    assert (data + FixedAll(words) + [BASE_LG])[p..p + 4] == FixedAll(words)[4 * j..4 * j + 4];
  }

  lemma ShiftedByBase(offset: nat)
    ensures Shifted(offset, BASE_LG) == offset / BASE
  {
    assert Power(2, 5) == 2 * (2 * (2 * (2 * (2 * Power(2, 0)))));
    assert Power(2, 11) == 2 * (2 * (2 * (2 * (2 * (2 * Power(2, 5))))));
  }

  /** For a block that was built, the reader asks exactly the filter for the offset; past the
      last filter it cannot say no, and no key matches a filter of no keys. */
  lemma BlockAnswers(data: Bytes, at: seq<nat>, sets: seq<seq<Bytes>>, k: nat, offset: nat, key: Bytes)
    requires FiltersOk(data, at, sets, k) && |BlockOf(data, at)| < MAX32
    ensures var i := offset / BASE;
            && (i >= |sets| ==> Answer(BlockOf(data, at), offset, key))
            && (i < |sets| ==>
                  && at[i] <= EndOf(at, i, |data|) <= |data|
                  && Answer(BlockOf(data, at), offset, key) == MayMatch(key, data[at[i]..EndOf(at, i, |data|)]))
  {
    hide MayMatch, Unfixed, FixedAll, WordAt, IsFilter, Shifted, Low32;
    var words, i, contents := Offsets(at) + [Low32(|data|)], offset / BASE, BlockOf(data, at);
    ShiftedByBase(offset);
    AllLength(words);
    Low32Small(|data|);
    WordReads(data, words, |at|);
    assert |contents| == |data| + 4 * |at| + 5 && contents[|contents| - 1] == BASE_LG;
    if i < |sets| {
      assert FilterOk(data, at, sets, k, i);
      Low32Small(at[i]);
      WordReads(data, words, i);
      if i + 1 < |at| {
        assert FilterOk(data, at, sets, k, i + 1);
        Low32Small(at[i + 1]);
      }
      WordReads(data, words, i + 1);
      assert contents[at[i]..EndOf(at, i, |data|)] == data[at[i]..EndOf(at, i, |data|)];
    }
  }

  /** No false negatives. */
  lemma AddedMatch(data: Bytes, at: seq<nat>, sets: seq<seq<Bytes>>, k: nat, added: set<(nat, Bytes)>)
    requires FiltersOk(data, at, sets, k) && |BlockOf(data, at)| < MAX32
    requires Collected(added, sets, [])
    ensures forall p :: p in added ==> Answer(BlockOf(data, at), p.0, p.1)
  {
    hide Answer, BlockOf, MayMatch, IsFilter;
    forall p | p in added
      ensures Answer(BlockOf(data, at), p.0, p.1)
    {
      var i := p.0 / BASE;
      BlockAnswers(data, at, sets, k, p.0, p.1);
      assert InSet(i, p.1, sets, []);
      assert FilterOk(data, at, sets, k, i);
      NeverMisses(data[at[i]..EndOf(at, i, |data|)], sets[i], k, p.1);
    }
  }

  class FilterBlockBuilder {
    const policy: BloomFilterPolicy
    var keys: Bytes
    var start: seq<nat>
    var result: Bytes
    var filterOffsets: seq<nat>

    ghost var at: seq<nat>             // the offsets before they are cut to 32 bits
    ghost var sets: seq<seq<Bytes>>    // the keys of every filter so far
    ghost var pending: seq<Bytes>      // and of the next one
    ghost var added: set<(nat, Bytes)> // every key with the offset of its block

    ghost predicate Valid()
      reads this
    {
      && policy.Valid()
      && FiltersOk(result, at, sets, policy.k) && filterOffsets == Offsets(at)
      && Flattened(keys, start, pending) && Collected(added, sets, pending)
    }

    constructor (policy: BloomFilterPolicy)
      requires policy.Valid()
      ensures Valid() && this.policy == policy && filterOffsets == [] && added == {}
    {
      this.policy := policy;
      keys, start, result, filterOffsets := [], [], [], [];
      at, sets, pending, added := [], [], [], {};
    }

    /** As many filters as the offset says come before; the source asserts that there are
        not more already. */
    method StartBlock(blockOffset: nat)
      requires Valid() && blockOffset / BASE >= |filterOffsets|
      modifies this
      ensures Valid() && |filterOffsets| == blockOffset / BASE && added == old(added)
    {
      var filterIndex := blockOffset / BASE;
      while filterIndex > |filterOffsets|
        invariant Valid() && |filterOffsets| <= filterIndex && added == old(added)
      {
        GenerateFilter();
      }
    }

    /** To be called after a StartBlock for `current`. */
    method AddKey(key: Bytes, ghost current: nat)
      requires Valid() && current / BASE == |filterOffsets|
      modifies this`keys, this`start, this`pending, this`added
      ensures Valid() && added == old(added) + {(current, key)}
    {
      hide FiltersOk, Flattened;
      KeyAdded(keys, start, pending, key);
      start := start + [|keys|];
      keys := keys + key;
      pending := pending + [key];
      added := added + {(current, key)};
      OffsetCount(result, at, sets, policy.k);
    }

    static lemma OffsetCount(data: Bytes, at: seq<nat>, sets: seq<seq<Bytes>>, k: nat)
      requires FiltersOk(data, at, sets, k)
      ensures |at| == |sets| == |Offsets(at)|
    {
    }

    method GenerateFilter()
      requires Valid()
      modifies this
      ensures Valid() && added == old(added) && pending == []
      ensures |filterOffsets| == |old(filterOffsets)| + 1 && sets == old(sets) + [old(pending)]
      ensures old(result) <= result
    {
      hide FiltersOk, IsFilter, Low32, Offsets;
      ghost var data0 := result;
      OffsetCount(result, at, sets, policy.k);
      var numKeys := |start|;
      filterOffsets := filterOffsets + [Low32(|result|)];
      if numKeys != 0 {
        var tmpKeys: seq<Bytes> := [];
        for i := 0 to numKeys
          invariant |tmpKeys| == i && forall j :: 0 <= j < i ==> tmpKeys[j] == pending[j]
        {
          assert KeyAt(keys, start, pending, i);
          tmpKeys := tmpKeys + [keys[start[i]..if i + 1 < |start| then start[i + 1] else |keys|]];
        }
        assert tmpKeys == pending;
        result := policy.CreateFilter(tmpKeys, result);
        keys, start := [], [];
      }
      ghost var filter := result[|data0|..];
      assert result == data0 + filter;
      FilterAdded(data0, at, sets, policy.k, pending, filter);
      at, sets, pending := at + [|data0|], sets + [pending], [];
      OffsetCount(result, at, sets, policy.k);
    }

    /** The builder's last act: what its reader then answers for the keys added. */
    method Finish() returns (contents: Bytes, ghost data: Bytes)
      requires Valid()
      modifies this
      ensures FiltersOk(data, at, sets, policy.k) && contents == BlockOf(data, at)
      ensures sets == if old(pending) == [] then old(sets) else old(sets) + [old(pending)]
      ensures |contents| < MAX32 ==> forall p :: p in old(added) ==> Answer(contents, p.0, p.1)
    {
      hide FiltersOk, FixedAll, Low32, Offsets, Answer, Fixed;
      if start != [] {
        GenerateFilter();
      }
      data := result;
      var arrayOffset := Low32(|result|);
      ghost var offsets, words := filterOffsets, filterOffsets + [arrayOffset];
      assert data + FixedAll(offsets[..0]) == data;
      for i := 0 to |filterOffsets|
        invariant result == data + FixedAll(offsets[..i])
        modifies this`result
      {
        OneWord(data, offsets, i);
        result := result + Fixed(filterOffsets[i], 4);
      }
      assert words[..|offsets|] == offsets[..|offsets|] && words[..|words|] == words;
      OneWord(data, words, |offsets|);
      result := result + Fixed(arrayOffset, 4);
      result := result + [BASE_LG];
      contents := result;
      if |contents| < MAX32 {
        AddedMatch(data, at, sets, policy.k, added);
      }
    }
  }
}
