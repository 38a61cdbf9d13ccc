/** Blocks (table/block_builder.cc, table/format.h): sorted entries, each storing only the
    part of its key that differs from the one before, with restart points at which a whole
    key is stored.
 */
module Blocks {
  import opened Coding
  import opened Comparator
  import opened Options

  datatype KV = KV(key: Bytes, value: Bytes)

  /** The three lengths, in 32 bits each, then the unshared part of the key, then the value. */
  function Piece(shared: nat, kv: KV): (s: Bytes)
    requires shared <= |kv.key|
    ensures |s| >= 3
  {
    Varint(Low32(shared)) + Varint(Low32(|kv.key| - shared)) + Varint(Low32(|kv.value|)) + kv.key[shared..] + kv.value
  }

  /** Entry i stands at its offset and takes over `shares[i]` bytes of the key before. */
  ghost predicate EntryOk(data: Bytes, es: seq<KV>, offs: seq<nat>, shares: seq<nat>, i: nat)
    requires i < |es| == |shares| && |offs| == |es| + 1
  {
    && shares[i] <= |es[i].key|
    && (if i == 0 then shares[i] == 0
        else shares[i] <= |es[i - 1].key| && es[i - 1].key[..shares[i]] == es[i].key[..shares[i]])
    && offs[i] + |Piece(shares[i], es[i])| == offs[i + 1] <= |data|
    && data[offs[i]..offs[i + 1]] == Piece(shares[i], es[i])
  }

  ghost predicate Entries(data: Bytes, es: seq<KV>, offs: seq<nat>, shares: seq<nat>) {
    && |es| == |shares| && |offs| == |es| + 1 && offs[0] == 0 && offs[|es|] == |data|
    && forall i :: 0 <= i < |es| ==> EntryOk(data, es, offs, shares, i)
  }

  /** Restart point j is at entry rs[j], which shares nothing. */
  ghost predicate RestartOk(points: seq<nat>, es: seq<KV>, offs: seq<nat>, shares: seq<nat>, rs: seq<nat>, j: nat)
    requires j < |points| == |rs| && |es| == |shares| && |offs| == |es| + 1
  {
    && (if es == [] then rs[j] == 0 else rs[j] < |es| && shares[rs[j]] == 0)
    && points[j] == offs[rs[j]]
    && (j == 0 ==> rs[j] == 0)
    && (j > 0 ==> rs[j - 1] < rs[j])
  }

  ghost predicate Restarts(points: seq<nat>, es: seq<KV>, offs: seq<nat>, shares: seq<nat>, rs: seq<nat>) {
    && |points| == |rs| >= 1 && |es| == |shares| && |offs| == |es| + 1
    && forall j :: 0 <= j < |rs| ==> RestartOk(points, es, offs, shares, rs, j)
  }

  /** The restart array */
  function FixedAll(points: seq<nat>): (s: Bytes)
    ensures |s| == 4 * |points|
  {
    if points == [] then [] else FixedAll(points[..|points| - 1]) + Fixed(points[|points| - 1], 4)
  }

  function Contents(data: Bytes, points: seq<nat>): Bytes {
    data + FixedAll(points) + Fixed(|points|, 4)
  }

  /** An entry with lengths of one byte each. */
  lemma PieceBytes(shared: nat, kv: KV)
    requires shared <= |kv.key| < 0x80 && |kv.value| < 0x80
    ensures Piece(shared, kv) == [shared, |kv.key| - shared, |kv.value|] + kv.key[shared..] + kv.value
  {
    hide Varint, Low32;
    VarintBytes(shared);
    VarintBytes(|kv.key| - shared);
    VarintBytes(|kv.value|);
    Low32Small(shared);
    Low32Small(|kv.key| - shared);
    Low32Small(|kv.value|);
  }

  /** The end of a block with two restart points: four bytes each, and four of their number. */
  lemma ContentsBytes(data: Bytes, p: nat)
    requires p < 0x1_0000_0000
    ensures Contents(data, [0, p])
            == data + [0, 0, 0, 0] + [p % 0x100, p / 0x100 % 0x100, p / 0x1_0000 % 0x100, p / 0x100_0000]
               + [2, 0, 0, 0]
  {
    hide Fixed;
    FixedBytes(0);
    FixedBytes(2);
    FixedBytes(p);
    assert [0, p][..1] == [0] && [0][..0] == [];
    assert FixedAll([0]) == FixedAll([]) + Fixed(0, 4);
    assert FixedAll([0, p]) == FixedAll([0]) + Fixed(p, 4);
  }

  /** The length of the longest common prefix. */
  function Common(a: Bytes, b: Bytes): (n: nat)
    ensures n <= |a| && n <= |b| && a[..n] == b[..n]
    ensures n < |a| && n < |b| ==> a[n] != b[n]
  {
    if a == [] || b == [] || a[0] != b[0] then 0
    else
      var n := Common(a[1..], b[1..]);
      assert a[..n + 1] == [a[0]] + a[1..][..n] && b[..n + 1] == [b[0]] + b[1..][..n];
      n + 1
  }

  /** What the builder has so far. */
  ghost predicate Building(interval: nat, buffer: Bytes, restarts: seq<nat>, counter: nat, lastKey: Bytes,
                           es: seq<KV>, offs: seq<nat>, shares: seq<nat>, rs: seq<nat>)
  {
    && Entries(buffer, es, offs, shares)
    && Restarts(restarts, es, offs, shares, rs)
    && rs[|rs| - 1] + counter == |es| && counter <= interval && (es != [] ==> counter >= 1)
    && (forall j :: 0 < j < |rs| ==> rs[j] == rs[j - 1] + interval)
    && lastKey == (if es == [] then [] else es[|es| - 1].key)
  }

  class BlockBuilder {
    const interval: nat
    var buffer: Bytes
    var restarts: seq<nat>
    var counter: nat
    var finished: bool
    var lastKey: Bytes

    ghost var es: seq<KV>
    ghost var offs: seq<nat>
    ghost var shares: seq<nat>
    ghost var rs: seq<nat>

    ghost predicate Valid()
      reads this
    {
      && interval >= 1 && !finished
      && Building(interval, buffer, restarts, counter, lastKey, es, offs, shares, rs)
    }

    constructor (interval: nat)
      requires interval >= 1
      ensures Valid() && es == [] && this.interval == interval
    {
      this.interval := interval;
      buffer, restarts, counter, finished, lastKey := [], [0], 0, false, [];
      es, offs, shares, rs := [], [0], [], [0];
    }

    /** Each entry shares all it can with the one before, except every interval-th, which
        shares nothing and becomes a restart point. */
    method Add(key: Bytes, value: Bytes)
      requires Valid()
      modifies this
      ensures Valid() && es == old(es) + [KV(key, value)]
      ensures shares == old(shares) + [if old(counter) < interval then Common(old(lastKey), key) else 0]
    {
      hide Piece, Building, Varint, Common;
      var shared := 0;
      ghost var restarts0, counter0, kv := restarts, counter, KV(key, value);
      if counter < interval {
        shared := SharedWithLast(key);
      } else {
        restarts := restarts + [|buffer|];
        counter := 0;
      }
      AddKeeps(interval, buffer, restarts0, counter0, lastKey, es, offs, shares, rs, kv, shared);
      AppendPiece(shared, key, value);
      Joined(lastKey, key, shared);
      lastKey := lastKey[..shared] + key[shared..];
      rs := if counter0 < interval then rs else rs + [|es|];
      counter := counter + 1;
      es, offs, shares := es + [kv], offs + [|buffer|], shares + [shared];
    }

    /** "<shared><non_shared><value_size>", then the key delta and the value */
    method AppendPiece(shared: nat, key: Bytes, value: Bytes)
      requires shared <= |key|
      modifies this`buffer
      ensures buffer == old(buffer) + Piece(shared, KV(key, value))
    {
      hide Piece, Varint, Low32;
      var nonShared := |key| - shared;
      buffer := buffer + Varint(Low32(shared));
      buffer := buffer + Varint(Low32(nonShared));
      buffer := buffer + Varint(Low32(|value|));
      buffer := buffer + key[shared..];
      buffer := buffer + value;
      PieceIs(old(buffer), shared, KV(key, value));
    }

    method SharedWithLast(key: Bytes) returns (shared: nat)
      ensures shared == Common(lastKey, key)
    {
      shared := 0;
      var minLength := if |lastKey| < |key| then |lastKey| else |key|;
      while shared < minLength && lastKey[shared] == key[shared]
        invariant shared <= minLength && lastKey[..shared] == key[..shared]
      {
        shared := shared + 1;
      }
      CommonIs(lastKey, key, shared);
    }

    static lemma AddKeeps(interval: nat, buffer: Bytes, restarts: seq<nat>, counter: nat, lastKey: Bytes,
                          es: seq<KV>, offs: seq<nat>, shares: seq<nat>, rs: seq<nat>, kv: KV, shared: nat)
      requires interval >= 1 && Building(interval, buffer, restarts, counter, lastKey, es, offs, shares, rs)
      requires shared == if counter < interval then Common(lastKey, kv.key) else 0
      ensures shared <= |lastKey| && shared <= |kv.key| && lastKey[..shared] == kv.key[..shared]
      ensures var buffer' := buffer + Piece(shared, kv);
              if counter < interval then
                Building(interval, buffer', restarts, counter + 1, kv.key, es + [kv], offs + [|buffer'|],
                         shares + [shared], rs)
              else
                Building(interval, buffer', restarts + [|buffer|], 1, kv.key, es + [kv], offs + [|buffer'|],
                         shares + [shared], rs + [|es|])
    {
      hide Piece, EntryOk, RestartOk;
      var buffer' := buffer + Piece(shared, kv);
      assert lastKey[..shared] == kv.key[..shared];
      EntryAdded(buffer, es, offs, shares, shared, kv);
      if counter < interval {
        LaterRestart(restarts, es, offs, shares, rs);
        RestartsKeep(restarts, es, offs, shares, rs, kv, |buffer'|, shared);
      } else {
        RestartAdded(restarts, es, offs, shares, rs, kv, |buffer'|, shared);
      }
    }

    static lemma Joined(a: Bytes, b: Bytes, n: nat)
      requires n <= |a| && n <= |b| && a[..n] == b[..n]
      ensures a[..n] + b[n..] == b
    {
    }

    static lemma PieceIs(b: Bytes, shared: nat, kv: KV)
      requires shared <= |kv.key|
      ensures b + Varint(Low32(shared)) + Varint(Low32(|kv.key| - shared)) + Varint(Low32(|kv.value|))
              + kv.key[shared..] + kv.value
              == b + Piece(shared, kv)
    {
      hide Varint, Low32;
      Append5(b, Varint(Low32(shared)), Varint(Low32(|kv.key| - shared)), Varint(Low32(|kv.value|)), kv.key[shared..],
              kv.value);
    }

    static lemma Append5(b: Bytes, s: Bytes, t: Bytes, u: Bytes, v: Bytes, w: Bytes)
      ensures b + s + t + u + v + w == b + (s + t + u + v + w)
    {
    }

    static lemma CommonIs(a: Bytes, b: Bytes, n: nat)
      requires n <= |a| && n <= |b| && a[..n] == b[..n] && (n < |a| && n < |b| ==> a[n] != b[n])
      ensures n == Common(a, b)
    {
      var m := Common(a, b);
      if m < n {
        SameAt(a, b, n, m);
      } else if n < m {
        SameAt(a, b, m, n);
      }
    }

    static lemma SameAt(a: Bytes, b: Bytes, n: nat, k: nat)
      requires k < n <= |a| && n <= |b| && a[..n] == b[..n]
      ensures a[k] == b[k]
    {
      assert a[..n][k] == b[..n][k];
    }

    static lemma EntryAdded(data: Bytes, es: seq<KV>, offs: seq<nat>, shares: seq<nat>, shared: nat, kv: KV)
      requires Entries(data, es, offs, shares) && shared <= |kv.key|
      requires if es == [] then shared == 0
               else shared <= |es[|es| - 1].key| && es[|es| - 1].key[..shared] == kv.key[..shared]
      ensures var data' := data + Piece(shared, kv);
              Entries(data', es + [kv], offs + [|data'|], shares + [shared])
    {
      hide Piece;
      var data' := data + Piece(shared, kv);
      var es', offs', shares' := es + [kv], offs + [|data'|], shares + [shared];
      forall i | 0 <= i < |es'|
        ensures EntryOk(data', es', offs', shares', i)
      {
        if i < |es| {
          assert EntryOk(data, es, offs, shares, i);
          assert data'[offs[i]..offs[i + 1]] == data[offs[i]..offs[i + 1]];
        } else {
          assert data'[|data|..|data'|] == Piece(shared, kv);
        }
      }
    }

    static lemma LaterRestart(points: seq<nat>, es: seq<KV>, offs: seq<nat>, shares: seq<nat>, rs: seq<nat>)
      requires Restarts(points, es, offs, shares, rs)
      ensures |rs| > 1 ==> rs[|rs| - 1] > 0
    {
      assert RestartOk(points, es, offs, shares, rs, |rs| - 1);
    }

    static lemma RestartsKeep(points: seq<nat>, es: seq<KV>, offs: seq<nat>, shares: seq<nat>, rs: seq<nat>, kv: KV,
                              size: nat, shared: nat)
      requires Restarts(points, es, offs, shares, rs) && (es == [] ==> shared == 0 && |rs| == 1)
      ensures Restarts(points, es + [kv], offs + [size], shares + [shared], rs)
    {
      forall j | 0 <= j < |rs|
        ensures RestartOk(points, es + [kv], offs + [size], shares + [shared], rs, j)
      {
        assert RestartOk(points, es, offs, shares, rs, j);
      }
    }

    static lemma RestartAdded(points: seq<nat>, es: seq<KV>, offs: seq<nat>, shares: seq<nat>, rs: seq<nat>, kv: KV,
                              size: nat, shared: nat)
      requires Restarts(points, es, offs, shares, rs) && es != [] && shared == 0
      ensures Restarts(points + [offs[|es|]], es + [kv], offs + [size], shares + [shared], rs + [|es|])
    {
      forall j | 0 <= j < |rs| + 1
        ensures RestartOk(points + [offs[|es|]], es + [kv], offs + [size], shares + [shared], rs + [|es|], j)
      {
        if j < |rs| {
          assert RestartOk(points, es, offs, shares, rs, j);
        } else {
          assert RestartOk(points, es, offs, shares, rs, |rs| - 1);
        }
      }
    }

    /** What Finish would give so far. */
    function CurrentSizeEstimate(): nat
      reads this
    {
      |buffer| + 4 * |restarts| + 4
    }

    predicate Empty()
      reads this
    {
      buffer == []
    }

    lemma EmptyIsEmpty()
      requires Valid()
      ensures Empty() <==> es == []
    {
      hide Piece, Restarts;
      if es != [] {
        assert EntryOk(buffer, es, offs, shares, |es| - 1);
        PieceNotEmpty(shares[|es| - 1], es[|es| - 1]);
      }
    }

    lemma IntervalIsGood()
      requires Valid()
      ensures interval >= 1
    {
    }

    static lemma PieceNotEmpty(shared: nat, kv: KV)
      requires shared <= |kv.key|
      ensures |Piece(shared, kv)| > 0
    {
    }

    method Reset()
      requires interval >= 1
      modifies this
      ensures Valid() && es == []
    {
      buffer, restarts, counter, finished, lastKey := [], [0], 0, false, [];
      es, offs, shares, rs := [], [0], [], [0];
    }

    method Finish() returns (contents: Bytes)
      requires Valid()
      modifies this
      ensures contents == Contents(old(buffer), old(restarts)) && finished
      ensures |contents| == old(CurrentSizeEstimate())
    {
      hide Building, Fixed;
      ghost var data := buffer;
      for i := 0 to |restarts|
        invariant restarts == old(restarts) && buffer == data + FixedAll(restarts[..i])
      {
        assert restarts[..i + 1][..i] == restarts[..i];
        buffer := buffer + Fixed(restarts[i], 4);
      }
      assert restarts[..|restarts|] == restarts;
      buffer := buffer + Fixed(|restarts|, 4);
      finished := true;
      contents := buffer;
    }
  }
}
