/** TwoLevelIterator (table/two_level_iterator.cc): the concatenation of the blocks an index
    iterator points at, each opened when it is reached.  Blocks may be empty.
 */
module TwoLevels {
  import opened Comparator
  import opened Cursors
  import opened Dbformat
  import opened Options
  import opened Tables

  /** block_function_: the entries of the block an index value stands for. */
  type BlockFunction = Bytes -> seq<Entry>

  function BlocksOf(fetch: BlockFunction, index: seq<Entry>): (bs: seq<seq<Entry>>)
    ensures |bs| == |index| && forall i :: 0 <= i < |index| ==> bs[i] == fetch(index[i].value)
  {
    seq(|index|, i requires 0 <= i < |index| => fetch(index[i].value))
  }

  /** Each index key is at or past every key of its block and before every key of the next. */
  ghost predicate Divides(index: seq<Entry>, blocks: seq<seq<Entry>>) {
    && |index| == |blocks| && Sorted(index)
    && (forall i :: 0 <= i < |blocks| ==> Sorted(blocks[i]))
    && (forall i, j :: 0 <= i < |blocks| && 0 <= j < |blocks[i]| ==> NotAfter(blocks[i][j].key, index[i].key))
    && (forall i, j :: 0 < i < |blocks| && 0 <= j < |blocks[i]| ==> Before(index[i - 1].key, blocks[i][j].key))
  }

  /** Among all entries, those at or past `target` start in the block the index points at,
      or, if that block has none, with the next block. */
  lemma SeekDivides(index: seq<Entry>, blocks: seq<seq<Entry>>, target: InternalKey, q: nat)
    requires Divides(index, blocks) && q < |Flat(blocks)|
    ensures var i := LowerBound(index, target);
            if i == |index| then Before(Flat(blocks)[q].key, target)
            else Before(Flat(blocks)[q].key, target) <==> q < Start(blocks, i) + LowerBound(blocks[i], target)
  {
    hide Before, LowerBound;
    OrderLaws();
    var c, j := PlaceOf(blocks, q);
    FlatAt(blocks, c, j);
    var i := LowerBound(index, target);
    IndexBounds(index, target);
    if c < i {
      assert NotAfter(blocks[c][j].key, index[c].key);
      Earlier(blocks, c, j, i);
    } else if c == i {
      RunBounds(blocks[i], target);
    } else {
      PastIndex(index, blocks, i, c, j);
      Later(blocks, i, c, j);
      BoundLength(blocks[i], target);
    }
  }

  lemma BoundLength(es: seq<Entry>, target: InternalKey)
    ensures LowerBound(es, target) <= |es|
  {
  }

  lemma IndexBounds(index: seq<Entry>, target: InternalKey)
    ensures var i := LowerBound(index, target);
            && i <= |index| && (forall k :: 0 <= k < i ==> Before(index[k].key, target))
            && (i < |index| ==> !Before(index[i].key, target))
  {
    hide Before;
  }

  lemma RunBounds(es: seq<Entry>, target: InternalKey)
    requires Sorted(es)
    ensures forall j :: 0 <= j < |es| ==> (Before(es[j].key, target) <==> j < LowerBound(es, target))
  {
    hide Before;
    OrderLaws();
    var p := LowerBound(es, target);
    forall j | p <= j < |es|
      ensures !Before(es[j].key, target)
    {
      assert j > p ==> Before(es[p].key, es[j].key);
    }
  }

  lemma {:induction false} Earlier(blocks: seq<seq<Entry>>, c: nat, j: nat, i: nat)
    requires c < i <= |blocks| && j < |blocks[c]|
    ensures Start(blocks, c) + j < Start(blocks, i)
  {
    if i > c + 1 {
      Earlier(blocks, c, j, i - 1);
    }
  }

  lemma {:induction false} Later(blocks: seq<seq<Entry>>, i: nat, c: nat, j: nat)
    requires i < c < |blocks| && j < |blocks[c]|
    ensures Start(blocks, c) + j >= Start(blocks, i) + |blocks[i]|
    decreases c
  {
    StartGrows(blocks, i + 1, c);
  }

  lemma {:induction false} StartGrows(blocks: seq<seq<Entry>>, i: nat, c: nat)
    requires i <= c <= |blocks|
    ensures Start(blocks, i) <= Start(blocks, c)
    decreases c
  {
    if i < c {
      StartGrows(blocks, i, c - 1);
    }
  }

  lemma PastIndex(index: seq<Entry>, blocks: seq<seq<Entry>>, i: nat, c: nat, j: nat)
    requires Divides(index, blocks) && i < c < |blocks| && j < |blocks[c]|
    ensures Before(index[i].key, blocks[c][j].key)
  {
    hide Before;
    OrderLaws();
    assert Before(index[c - 1].key, blocks[c][j].key);
    assert i < c - 1 ==> Before(index[i].key, index[c - 1].key);
  }

  lemma NextStart(blocks: seq<seq<Entry>>, i: nat)
    requires i < |blocks|
    ensures Start(blocks, i + 1) == Start(blocks, i) + |blocks[i]|
    ensures i + 1 == |blocks| ==> Start(blocks, i + 1) == |Flat(blocks)|
    ensures Start(blocks, i + 1) <= |Flat(blocks)|
  {
    FlatLength(blocks);
    StartGrows(blocks, i + 1, |blocks|);
  }

  lemma NoBlocks(blocks: seq<seq<Entry>>)
    ensures Start(blocks, 0) == 0 && (blocks == [] ==> |Flat(blocks)| == 0)
  {
  }

  /** The position one step back; stepping back from the front leaves the cursor not valid. */
  function StepBack(n: nat, at: nat): nat {
    if at == 0 then n else at - 1
  }

  class TwoLevelIterator {
    const index: Cursor
    const fetch: BlockFunction
    var data: Cursor?
    var handle: Bytes  // what data was opened with

    ghost var at: nat  // the place among all entries; their number when not valid

    ghost function Blocks(): (bs: seq<seq<Entry>>)
      ensures |bs| == |index.entries|
    {
      BlocksOf(fetch, index.entries)
    }

    ghost function All(): seq<Entry> {
      Flat(Blocks())
    }

    /** The open block, if there is one, is the one the handle stands for. */
    ghost predicate Opened()
      reads this
    {
      data != null ==> data != index && data.entries == fetch(handle)
    }

    /** The open block is the one at the index position; none is open past the end. */
    ghost predicate InStep()
      reads this, index
    {
      && Opened() && index.pos <= |index.entries|
      && (data == null <==> index.pos == |index.entries|)
      && (data != null ==> handle == index.entries[index.pos].value)
    }

    ghost predicate Inv()
      reads this, index, data
    {
      && Opened()
      && (if data == null then at == |All()|
          else InStep() && data.Valid() && at == Start(Blocks(), index.pos) + data.pos < |All()|)
    }

    predicate Valid()
      reads this, data
    {
      data != null && data.Valid()
    }

    constructor (index: Cursor, fetch: BlockFunction)
      ensures Inv() && !Valid() && this.index == index && this.fetch == fetch
    {
      this.index, this.fetch := index, fetch;
      data, handle := null, [];
      at := |Flat(BlocksOf(fetch, index.entries))|;
    }

    /** The current entry. */
    function Current(): (e: Entry)
      requires Inv() && Valid()
      reads this, index, data
      ensures at < |All()| && e == All()[at]
    {
      FlatAt(Blocks(), index.pos, data.pos);
      data.Current()
    }

    /** Opens the block at the index position, unless it is open already. */
    method InitDataBlock()
      requires Opened() && index.pos <= |index.entries|
      modifies this`data, this`handle
      ensures InStep() && (data == old(data) || data == null || fresh(data))
    {
      if !index.Valid() {
        data := null;
      } else {
        var h := index.Current().value;
        if data != null && h == handle {
        } else {
          data := new Cursor(fetch(h));
          handle := h;
        }
      }
    }

    /** Past blocks with nothing left in them: p is the place of the first entry not behind. */
    method SkipEmptyDataBlocksForward(ghost p: nat)
      requires InStep()
      requires if data != null then data.pos <= |data.entries| && p == Start(Blocks(), index.pos) + data.pos
               else p == |All()|
      modifies this, index, data
      ensures Inv() && at == p
      ensures data == null || data == old(data) || fresh(data)
    {
      hide Flat, Start, BlocksOf;
      BlocksAre();
      while data == null || !data.Valid()
        invariant InStep() && (data == null || data == old(data) || fresh(data))
        invariant if data != null then data.pos <= |data.entries| && p == Start(Blocks(), index.pos) + data.pos
                  else p == |All()|
        decreases |index.entries| - index.pos
      {
        if !index.Valid() {
          data := null;
          at := |All()|;
          return;
        }
        NextStart(Blocks(), index.pos);
        index.Next();
        InitDataBlock();
        if data != null {
          data.SeekToFirst();
        }
      }
      NextStart(Blocks(), index.pos);
      at := p;
    }

    lemma BlocksAre()
      ensures |Blocks()| == |index.entries|
      ensures forall i :: 0 <= i < |index.entries| ==> Blocks()[i] == fetch(index.entries[i].value)
    {
    }

    /** Back past blocks with nothing before the cursor: n entries are not ahead. */
    method SkipEmptyDataBlocksBackward(ghost n: nat)
      requires InStep()
      requires if data != null then n == Start(Blocks(), index.pos) + (if data.Valid() then data.pos + 1 else 0)
               else n == 0
      modifies this, index, data
      ensures Inv() && at == StepBack(|All()|, n)
      ensures data == null || data == old(data) || fresh(data)
    {
      hide Flat, Start, BlocksOf;
      BlocksAre();
      NoBlocks(Blocks());
      while data == null || !data.Valid()
        invariant InStep() && (data == null || data == old(data) || fresh(data))
        invariant if data != null then n == Start(Blocks(), index.pos) + (if data.Valid() then data.pos + 1 else 0)
                  else n == 0
        decreases if index.pos == |index.entries| then 0 else index.pos + 1
      {
        if !index.Valid() {
          data := null;
          at := |All()|;
          return;
        }
        if index.pos > 0 {
          NextStart(Blocks(), index.pos - 1);
        }
        index.Prev();
        InitDataBlock();
        if data != null {
          data.SeekToLast();
        }
      }
      NextStart(Blocks(), index.pos);
      at := n - 1;
    }

    method SeekToFirst()
      requires Inv()
      modifies this, index, data
      ensures Inv() && at == 0
      ensures data == null || data == old(data) || fresh(data)
    {
      hide Flat, Start, BlocksOf;
      index.SeekToFirst();
      InitDataBlock();
      if data != null {
        data.SeekToFirst();
      }
      NoBlocks(Blocks());
      SkipEmptyDataBlocksForward(0);
    }

    method SeekToLast()
      requires Inv()
      modifies this, index, data
      ensures Inv() && at == if All() == [] then 0 else |All()| - 1
      ensures data == null || data == old(data) || fresh(data)
    {
      hide Flat, Start, BlocksOf;
      BlocksAre();
      NoBlocks(Blocks());
      index.SeekToLast();
      InitDataBlock();
      if data != null {
        data.SeekToLast();
        NextStart(Blocks(), index.pos);
      }
      SkipEmptyDataBlocksBackward(|All()|);
    }

    method Next()
      requires Inv() && Valid()
      modifies this, index, data
      ensures Inv() && at == old(at) + 1
      ensures data == null || data == old(data) || fresh(data)
    {
      hide Flat, Start, BlocksOf;
      data.Next();
      SkipEmptyDataBlocksForward(at + 1);
    }

    method Prev()
      requires Inv() && Valid()
      modifies this, index, data
      ensures Inv() && at == if old(at) == 0 then |All()| else old(at) - 1
      ensures data == null || data == old(data) || fresh(data)
    {
      hide Flat, Start, BlocksOf;
      data.Prev();
      SkipEmptyDataBlocksBackward(at);
    }

    /** Lands on the first entry of all at or past the target. */
    method Seek(target: InternalKey)
      requires Inv() && Divides(index.entries, Blocks())
      modifies this, index, data
      ensures Inv()
      ensures forall q :: 0 <= q < |All()| ==> (q < at <==> Before(All()[q].key, target))
      ensures data == null || data == old(data) || fresh(data)
    {
      hide Flat, Start, BlocksOf, Before, LowerBound, Divides;
      BlocksAre();
      IndexBounds(index.entries, target);
      index.Seek(target);
      InitDataBlock();
      if data != null {
        data.Seek(target);
        BoundLength(data.entries, target);
      }
      forall q | 0 <= q < |All()|
        ensures if index.pos == |index.entries| then Before(All()[q].key, target)
                else Before(All()[q].key, target) <==>
                  q < Start(Blocks(), index.pos) + LowerBound(Blocks()[index.pos], target)
      {
        SeekDivides(index.entries, Blocks(), target, q);
      }
      SkipEmptyDataBlocksForward(if data != null then Start(Blocks(), index.pos) + data.pos else |All()|);
    }
  }

  datatype Move = First | Last | To(target: InternalKey) | Ahead | Back

  /** The plain cursor over the concatenation: where each move leads. */
  function Replay(es: seq<Entry>, moves: seq<Move>, at: nat): nat
    decreases |moves|
  {
    if moves == [] then at
    else
      var next := match moves[0]
        case First => 0
        case Last => StepBack(|es|, |es|)
        case To(t) => LowerBound(es, t)
        case Ahead => if at < |es| then at + 1 else at
        case Back => if at < |es| then StepBack(|es|, at) else at;
      Replay(es, moves[1..], next)
  }

  /** Any mix of moves ends where the same moves lead a plain cursor over all the blocks. */
  method Drive(it: TwoLevelIterator, moves: seq<Move>)
    requires it.Inv() && Divides(it.index.entries, it.Blocks())
    modifies it, it.index, it.data
    ensures it.Inv() && it.at == Replay(it.All(), moves, old(it.at))
    ensures it.Valid() <==> it.at < |it.All()|
    ensures it.Valid() ==> it.Current() == it.All()[it.at]
  {
    hide Flat, Start, BlocksOf, Before, LowerBound, Divides;
    var i := 0;
    ghost var es := it.All();
    while i < |moves|
      invariant 0 <= i <= |moves|
      invariant it.Inv() && (it.data == null || it.data == old(it.data) || fresh(it.data))
      invariant Replay(es, moves[i..], it.at) == Replay(es, moves, old(it.at))
    {
      match moves[i] {
        case First => it.SeekToFirst();
        case Last => it.SeekToLast();
        case To(target) =>
          it.Seek(target);
          BoundIs(es, target, it.at);
        case Ahead => if it.Valid() { it.Next(); }
        case Back => if it.Valid() { it.Prev(); }
      }
      assert moves[i..][1..] == moves[i + 1..];
      i := i + 1;
    }
  }

  lemma BoundIs(es: seq<Entry>, target: InternalKey, p: nat)
    requires p <= |es| && forall q :: 0 <= q < |es| ==> (q < p <==> Before(es[q].key, target))
    ensures p == LowerBound(es, target)
  {
    hide Before;
    IndexBounds(es, target);
    var b := LowerBound(es, target);
    assert p < |es| ==> !Before(es[p].key, target);
    assert b < |es| ==> !Before(es[b].key, target);
  }
}
