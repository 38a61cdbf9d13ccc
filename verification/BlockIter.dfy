/** Reading a block (table/block.cc): a binary search among the restart points, then a
    linear scan that rebuilds each key from the one before.
 */
module BlockIters {
  import opened Blocks
  import opened Coding
  import opened Comparator
  import opened Options

  /** Comparator::Compare */
  type Order = (Bytes, Bytes) -> int

  ghost predicate Lawful(cmp: Order) {
    && (forall a, b {:trigger cmp(a, b)} :: cmp(a, b) == 0 <==> a == b)
    && (forall a, b {:trigger cmp(a, b)} :: cmp(a, b) < 0 <==> cmp(b, a) > 0)
    && (forall a, b, c {:trigger cmp(a, b), cmp(b, c)} :: cmp(a, b) < 0 && cmp(b, c) < 0 ==> cmp(a, c) < 0)
  }

  ghost predicate Increasing(cmp: Order, es: seq<KV>) {
    forall i, j :: 0 <= i < j < |es| ==> cmp(es[i].key, es[j].key) < 0
  }

  datatype Header = Header(shared: nat, nonShared: nat, valueLength: nat, used: nat)

  /** The header of the entry at the front of s, if the entry lies inside s. */
  function ParseEntry(s: Bytes): (r: Option<Header>)
    ensures r.Some? ==> r.value.used >= 3 && r.value.used + r.value.nonShared + r.value.valueLength <= |s|
  {
    if |s| < 3 then None
    else
      match Unvarint(s, 5)
      case None => None
      case Some(a) =>
        match Unvarint(s[a.used..], 5)
        case None => None
        case Some(b) =>
          match Unvarint(s[a.used..][b.used..], 5)
          case None => None
          case Some(c) =>
            var h := Header(Low32(a.value), Low32(b.value), Low32(c.value), a.used + b.used + c.used);
            if |s| - h.used < h.nonShared + h.valueLength then None else Some(h)
  }

  /** Reading back what the builder wrote. */
  lemma PieceParses(shared: nat, kv: KV, rest: Bytes)
    requires shared <= |kv.key| < MAX32 && |kv.value| < MAX32
    ensures var s, n := Piece(shared, kv) + rest, |kv.key| - shared;
            && ParseEntry(s).Some?
            && var h := ParseEntry(s).value;
               && h.shared == shared && h.nonShared == n && h.valueLength == |kv.value|
               && h.used + n + |kv.value| == |Piece(shared, kv)|
               && s[h.used..h.used + n] == kv.key[shared..]
               && s[h.used + n..h.used + n + |kv.value|] == kv.value
  {
    hide Varint, Unvarint, ParseEntry, Low32;
    var n := |kv.key| - shared;
    Low32Small(shared);
    Low32Small(n);
    Low32Small(|kv.value|);
    var a, b, c, tail := Varint(shared), Varint(n), Varint(|kv.value|), kv.key[shared..] + (kv.value + rest);
    Regroup(a, b, c, kv.key[shared..], kv.value, rest);
    Varint32Length(shared);
    Varint32Length(n);
    Varint32Length(|kv.value|);
    NotEmpty(shared);
    NotEmpty(n);
    NotEmpty(|kv.value|);
    VarintRoundTrip(shared, 5, b + (c + tail));
    VarintRoundTrip(n, 5, c + tail);
    VarintRoundTrip(|kv.value|, 5, tail);
    DropFront(a, b + (c + tail));
    DropFront(b, c + tail);
    Pieces(a, b, c, kv.key[shared..], kv.value, rest);
    ParsedAs(Piece(shared, kv) + rest, Parsed(shared, |a|), Parsed(n, |b|), Parsed(|kv.value|, |c|));
  }

  lemma ParsedAs(s: Bytes, a: Parsed, b: Parsed, c: Parsed)
    requires Unvarint(s, 5) == Some(a) && a.used <= |s| && Unvarint(s[a.used..], 5) == Some(b) && a.used + b.used <= |s|
    requires Unvarint(s[a.used..][b.used..], 5) == Some(c)
    requires a.value < MAX32 && b.value < MAX32 && c.value < MAX32 && |s| >= 3
    ensures ParseEntry(s) == if |s| - (a.used + b.used + c.used) < b.value + c.value then None
                             else Some(Header(a.value, b.value, c.value, a.used + b.used + c.used))
  {
    hide Unvarint, Low32;
    Low32Small(a.value);
    Low32Small(b.value);
    Low32Small(c.value);
  }

  lemma OneByteEach(s: Bytes)
    requires |s| >= 3 && s[0] < 128 && s[1] < 128 && s[2] < 128
    ensures ParseEntry(s) == if |s| - 3 < s[1] as int + s[2] as int then None else Some(Header(s[0], s[1], s[2], 3))
  {
    hide Low32;
    assert s[1..][0] == s[1] && s[1..][1..][0] == s[2];
    ParsedAs(s, Parsed(s[0], 1), Parsed(s[1], 1), Parsed(s[2], 1));
  }

  /** A number cut to 32 bits, read where the last one ended. */
  lemma UsedBound(s: Bytes)
    ensures Unvarint(s, 5).Some? ==> 1 <= Unvarint(s, 5).value.used <= |s|
  {
  }

  lemma NotEmpty(v: nat)
    ensures |Varint(v)| >= 1
  {
  }

  lemma DropFront(a: Bytes, b: Bytes)
    ensures (a + b)[|a|..] == b
  {
  }

  lemma Regroup(a: Bytes, b: Bytes, c: Bytes, d: Bytes, e: Bytes, f: Bytes)
    ensures a + b + c + d + e + f == a + (b + (c + (d + (e + f))))
  {
  }

  lemma Pieces(a: Bytes, b: Bytes, c: Bytes, d: Bytes, e: Bytes, f: Bytes)
    ensures var s, p := a + b + c + d + e + f, |a| + |b| + |c|;
            |s| == p + |d| + |e| + |f| && s[p..p + |d|] == d && s[p + |d|..p + |d| + |e|] == e
  {
  }

  lemma TooShort(s: Bytes)
    ensures |s| < 3 ==> ParseEntry(s) == None
  {
  }

  /** DecodeEntry: three lengths, with a short way when each is one byte. */
  method DecodeEntry(s: Bytes) returns (r: Option<Header>)
    ensures r == ParseEntry(s)
  {
    hide ParseEntry;
    TooShort(s);
    if |s| < 3 {
      return None;
    }
    if s[0] < 128 && s[1] < 128 && s[2] < 128 {
      OneByteEach(s);
      if |s| - 3 < s[1] as int + s[2] as int {
        return None;
      }
      return Some(Header(s[0], s[1], s[2], 3));
    }
    r := DecodeLong(s);
  }

  /** The same for lengths of any size. */
  method DecodeLong(s: Bytes) returns (r: Option<Header>)
    requires |s| >= 3
    ensures r == ParseEntry(s)
  {
    hide Unvarint, Low32;
    UsedBound(s);
    var a := GetVarint32(s);
    if a.None? { return None; }
    var s1 := s[a.value.used..];
    UsedBound(s1);
    var b := GetVarint32(s1);
    if b.None? { return None; }
    var s2 := s1[b.value.used..];
    UsedBound(s2);
    var c := GetVarint32(s2);
    if c.None? { return None; }
    var used := a.value.used + b.value.used + c.value.used;
    if |s| - used < b.value.value + c.value.value {
      return None;
    }
    return Some(Header(a.value.value, b.value.value, c.value.value, used));
  }

  // ---- a block as the builder left it ----

  /** What is known of a block that a builder finished. */
  datatype Plan = Plan(body: Bytes, points: seq<nat>, es: seq<KV>, offs: seq<nat>, shares: seq<nat>, rs: seq<nat>)

  ghost predicate Built(cmp: Order, data: Bytes, plan: Plan) {
    && data == Contents(plan.body, plan.points) && |plan.body| < MAX32 && |plan.points| < MAX32
    && Entries(plan.body, plan.es, plan.offs, plan.shares)
    && Restarts(plan.points, plan.es, plan.offs, plan.shares, plan.rs)
    && Lawful(cmp) && Increasing(cmp, plan.es)
  }

  lemma {:induction false} OffsetsIncrease(plan: Plan, i: nat, j: nat)
    requires Entries(plan.body, plan.es, plan.offs, plan.shares) && i < j <= |plan.es|
    ensures plan.offs[i] < plan.offs[j] <= |plan.body|
    decreases j
  {
    hide Piece;
    assert EntryOk(plan.body, plan.es, plan.offs, plan.shares, j - 1);
    PieceLength(plan.shares[j - 1], plan.es[j - 1]);
    if i < j - 1 {
      OffsetsIncrease(plan, i, j - 1);
    }
  }

  lemma PieceLength(shared: nat, kv: KV)
    requires shared <= |kv.key|
    ensures |Piece(shared, kv)| >= 3
  {
  }

  /** A key is put together from bytes of the block, so it is no longer than that. */
  lemma {:induction false} KeysFit(plan: Plan, i: nat)
    requires Entries(plan.body, plan.es, plan.offs, plan.shares) && i < |plan.es|
    ensures |plan.es[i].key| <= plan.offs[i + 1] <= |plan.body| && |plan.es[i].value| <= plan.offs[i + 1]
    decreases i
  {
    hide Piece;
    assert EntryOk(plan.body, plan.es, plan.offs, plan.shares, i);
    PieceHolds(plan.shares[i], plan.es[i]);
    if i > 0 {
      KeysFit(plan, i - 1);
    }
  }

  lemma PieceHolds(shared: nat, kv: KV)
    requires shared <= |kv.key|
    ensures |Piece(shared, kv)| >= (|kv.key| - shared) + |kv.value|
  {
  }

  /** The entry at offset i, read from the block. */
  lemma EntryParses(plan: Plan, i: nat)
    requires Entries(plan.body, plan.es, plan.offs, plan.shares) && i < |plan.es| && |plan.body| < MAX32
    ensures plan.offs[i] < plan.offs[i + 1] <= |plan.body|
    ensures var s, kv, n := plan.body[plan.offs[i]..], plan.es[i], |plan.es[i].key| - plan.shares[i];
            && n >= 0 && ParseEntry(s).Some?
            && var h := ParseEntry(s).value;
               && h.shared == plan.shares[i] && h.nonShared == n && h.valueLength == |kv.value|
               && plan.offs[i] + h.used + n + |kv.value| == plan.offs[i + 1]
               && s[h.used..h.used + n] == kv.key[h.shared..]
               && s[h.used + n..h.used + n + |kv.value|] == kv.value
  {
    hide Piece, ParseEntry;
    assert EntryOk(plan.body, plan.es, plan.offs, plan.shares, i);
    OffsetsIncrease(plan, i, i + 1);
    var s, piece := plan.body[plan.offs[i]..], Piece(plan.shares[i], plan.es[i]);
    assert s == piece + plan.body[plan.offs[i + 1]..];
    KeysFit(plan, i);
    PieceParses(plan.shares[i], plan.es[i], plan.body[plan.offs[i + 1]..]);
  }

  lemma {:induction false} PointAt(points: seq<nat>, j: nat)
    requires j < |points|
    ensures FixedAll(points)[4 * j..4 * j + 4] == Fixed(points[j], 4)
  {
    hide Fixed;
    var m := |points| - 1;
    FourBytes(points[m]);
    if j < m {
      PointAt(points[..m], j);
      assert FixedAll(points)[4 * j..4 * j + 4] == FixedAll(points[..m])[4 * j..4 * j + 4];
    }
  }

  lemma FourBytes(v: nat)
    ensures |Fixed(v, 4)| == 4
  {
  }

  /** The restart array and its length, read from the end of the block. */
  lemma ArrayReads(data: Bytes, plan: Plan, j: nat)
    requires data == Contents(plan.body, plan.points) && |plan.points| < MAX32
    requires j < |plan.points| && plan.points[j] < MAX32
    ensures |data| == |plan.body| + 4 * |plan.points| + 4
    ensures Unfixed(data[|data| - 4..]) == |plan.points|
    ensures Unfixed(data[|plan.body| + 4 * j..|plan.body| + 4 * j + 4]) == plan.points[j]
  {
    hide Fixed, Unfixed, FixedAll;
    var all, count := FixedAll(plan.points), Fixed(|plan.points|, 4);
    FourBytes(|plan.points|);
    AllLength(plan.points);
    PointAt(plan.points, j);
    Fixed32RoundTrip(plan.points[j]);
    Fixed32RoundTrip(|plan.points|);
    assert data[|data| - 4..] == count;
    assert data[|plan.body| + 4 * j..|plan.body| + 4 * j + 4] == all[4 * j..4 * j + 4];
  }

  lemma AllLength(points: seq<nat>)
    ensures |FixedAll(points)| == 4 * |points|
  {
  }

  lemma EntryFacts(plan: Plan, i: nat)
    requires Entries(plan.body, plan.es, plan.offs, plan.shares) && i < |plan.es|
    ensures plan.shares[i] <= |plan.es[i].key| && (i == 0 ==> plan.shares[i] == 0)
    ensures i > 0 ==>
              && plan.shares[i] <= |plan.es[i - 1].key|
              && plan.es[i - 1].key[..plan.shares[i]] == plan.es[i].key[..plan.shares[i]]
  {
    hide Piece;
    assert EntryOk(plan.body, plan.es, plan.offs, plan.shares, i);
  }

  lemma RestartFacts(plan: Plan, j: nat)
    requires Entries(plan.body, plan.es, plan.offs, plan.shares)
    requires Restarts(plan.points, plan.es, plan.offs, plan.shares, plan.rs) && j < |plan.rs|
    ensures |plan.rs| == |plan.points| && plan.rs[j] <= |plan.es|
            && plan.points[j] == plan.offs[plan.rs[j]] <= |plan.body|
    ensures plan.es != [] ==> plan.rs[j] < |plan.es| && plan.shares[plan.rs[j]] == 0
    ensures plan.es == [] ==> plan.rs[j] == 0
    ensures j == 0 ==> plan.rs[j] == 0
    ensures j > 0 ==> plan.rs[j - 1] < plan.rs[j]
  {
    hide EntryOk;
    assert RestartOk(plan.points, plan.es, plan.offs, plan.shares, plan.rs, j);
    if plan.rs[j] < |plan.es| {
      OffsetsIncrease(plan, plan.rs[j], |plan.es|);
    }
  }

  /** The next entry to parse is entry i: as much of its key as it shares is at hand. */
  ghost predicate Ready(plan: Plan, i: nat, next: nat, key: Bytes, ri: nat) {
    && |plan.es| == |plan.shares| && |plan.offs| == |plan.es| + 1 && i <= |plan.es| && next == plan.offs[i]
    && (i < |plan.es| ==> plan.shares[i] <= |key| && plan.shares[i] <= |plan.es[i].key|
                          && key[..plan.shares[i]] == plan.es[i].key[..plan.shares[i]])
    && ri < |plan.rs| && plan.rs[ri] <= i
  }

  /** Entry i is the current one; restart point ri is the last before it, or at it. */
  ghost predicate Standing(plan: Plan, i: nat, current: nat, next: nat, key: Bytes, value: Bytes, ri: nat) {
    && |plan.offs| == |plan.es| + 1 && i < |plan.es|
    && current == plan.offs[i] && next == plan.offs[i + 1] && key == plan.es[i].key && value == plan.es[i].value
    && ri < |plan.rs| && plan.rs[ri] <= i && (ri + 1 < |plan.rs| ==> plan.rs[ri + 1] >= i)
  }

  lemma StandingIsReady(plan: Plan, i: nat, current: nat, next: nat, key: Bytes, value: Bytes, ri: nat)
    requires Entries(plan.body, plan.es, plan.offs, plan.shares) && Standing(plan, i, current, next, key, value, ri)
    ensures Ready(plan, i + 1, next, key, ri)
  {
    hide EntryOk;
    if i + 1 < |plan.es| {
      EntryFacts(plan, i + 1);
    }
  }

  lemma RestartIsReady(plan: Plan, ri: nat)
    requires Entries(plan.body, plan.es, plan.offs, plan.shares)
    requires Restarts(plan.points, plan.es, plan.offs, plan.shares, plan.rs) && ri < |plan.rs|
    ensures Ready(plan, plan.rs[ri], plan.points[ri], [], ri)
  {
    hide EntryOk, RestartOk;
    RestartFacts(plan, ri);
  }

  class Iter {
    const cmp: Order
    const data: Bytes
    const restarts: nat
    const numRestarts: nat
    var current: nat
    var restartIndex: nat
    var key: Bytes
    var valueAt: nat
    var valueLength: nat
    var corrupt: bool

    ghost const intact: bool  // whether a builder made the block, as `plan` says
    ghost const plan: Plan
    ghost var at: nat         // which entry is current; their number when not valid

    ghost predicate Shape() {
      && numRestarts > 0 && |data| == restarts + 4 * numRestarts + 4
      && (intact ==> Built(cmp, data, plan) && restarts == |plan.body| && numRestarts == |plan.points|)
    }

    ghost predicate Inv()
      reads this
    {
      && Shape() && current <= restarts
      && (current < restarts ==> restartIndex < numRestarts && current < NextEntryOffset() <= restarts)
      && (intact ==> !corrupt && if current < restarts
                                 then Standing(plan, at, current, NextEntryOffset(), key, Value(), restartIndex)
                                 else at == |plan.es|)
    }

    function NextEntryOffset(): nat
      reads this
    {
      valueAt + valueLength
    }

    predicate Valid()
      reads this
    {
      current < restarts
    }

    function Value(): Bytes
      requires NextEntryOffset() <= |data|
      reads this
    {
      data[valueAt..valueAt + valueLength]
    }

    /** NewIterator, for a block with at least one restart point. */
    constructor (cmp: Order, data: Bytes, restarts: nat, numRestarts: nat, ghost intact: bool, ghost plan: Plan)
      requires numRestarts > 0 && |data| == restarts + 4 * numRestarts + 4
      requires intact ==> Built(cmp, data, plan) && restarts == |plan.body| && numRestarts == |plan.points|
      ensures Inv() && !Valid() && this.intact == intact && this.plan == plan && this.cmp == cmp && this.data == data
    {
      this.cmp, this.data, this.restarts, this.numRestarts := cmp, data, restarts, numRestarts;
      current, restartIndex := restarts, numRestarts;
      key, valueAt, valueLength, corrupt := [], 0, 0, false;
      this.intact, this.plan := intact, plan;
      at := |plan.es|;
    }

    function GetRestartPoint(index: nat): (p: nat)
      requires Shape() && index < numRestarts
    {
      Unfixed(data[restarts + 4 * index..restarts + 4 * index + 4])
    }

    lemma PointIs(index: nat)
      requires Shape() && intact && index < numRestarts
      ensures |plan.rs| == |plan.points| == numRestarts && GetRestartPoint(index) == plan.points[index]
    {
      hide EntryOk, RestartOk;
      RestartFacts(plan, index);
      ArrayReads(data, plan, index);
    }

    /** In an intact block the iterator is at an entry or past the last one. */
    lemma ValidIff()
      requires Inv() && intact
      ensures at <= |plan.es| && (Valid() <==> at < |plan.es|)
    {
    }

    method CorruptionError()
      modifies this`current, this`restartIndex, this`corrupt, this`key, this`valueAt, this`valueLength
      ensures current == restarts && restartIndex == numRestarts && corrupt && key == [] && valueAt == 0
              && valueLength == 0
    {
      current := restarts;
      restartIndex := numRestarts;
      corrupt := true;
      key, valueAt, valueLength := [], 0, 0;
    }

    /** Moves on to the entry just past the current one: entry i of an intact block. */
    method ParseNextKey(ghost i: nat) returns (ok: bool)
      requires Shape() && restartIndex < numRestarts
      requires intact ==> !corrupt && Ready(plan, i, NextEntryOffset(), key, restartIndex)
      modifies this
      ensures Inv() && ok == Valid()
      ensures ok ==> current == old(NextEntryOffset())
      ensures intact ==> at == i && (ok <==> i < |plan.es|)
    {
      hide Ready, Standing, Built, Unfixed, ParseEntry;
      current := NextEntryOffset();
      if intact {
        ReadyFacts(cmp, data, plan, i, current, key, restartIndex);
      }
      ghost var key0, ri0 := key, restartIndex;
      at := i;
      if current >= restarts {
        current := restarts;
        restartIndex := numRestarts;
        return false;
      }
      var entry := data[current..restarts];
      var header := DecodeEntry(entry);
      if header.None? || |key| < header.value.shared {
        CorruptionError();
        return false;
      }
      var h := header.value;
      EntryInside(entry, h);
      key := key[..h.shared] + entry[h.used..h.used + h.nonShared];
      valueAt := current + h.used + h.nonShared;
      valueLength := h.valueLength;
      FindRestart();
      if intact {
        NowStanding(cmp, data, plan, i, current, key0, ri0, restartIndex);
      }
      return true;
    }

    /** The last step of ParseNextKey: restart points before the entry are passed. */
    method FindRestart()
      requires Shape() && current < restarts && restartIndex < numRestarts
      requires intact ==> at < |plan.es| && |plan.offs| == |plan.es| + 1 && |plan.rs| == numRestarts
                          && current == plan.offs[at] && plan.rs[restartIndex] <= at
      modifies this`restartIndex
      ensures restartIndex < numRestarts
      ensures intact ==>
                && plan.rs[restartIndex] <= at
                && (restartIndex + 1 < numRestarts ==> plan.rs[restartIndex + 1] >= at)
    {
      hide Built, Unfixed;
      while restartIndex + 1 < numRestarts && GetRestartPoint(restartIndex + 1) < current
        invariant restartIndex < numRestarts
        invariant intact ==> plan.rs[restartIndex] <= at
      {
        if intact {
          PointIs(restartIndex + 1);
          PointOrder(cmp, data, plan, restartIndex + 1, at);
        }
        restartIndex := restartIndex + 1;
      }
      if intact && restartIndex + 1 < numRestarts {
        PointIs(restartIndex + 1);
        PointOrder(cmp, data, plan, restartIndex + 1, at);
      }
    }

    /** Restart points are in the order of their entries. */
    static lemma PointOrder(cmp: Order, data: Bytes, plan: Plan, j: nat, i: nat)
      requires Built(cmp, data, plan) && j < |plan.rs| && i < |plan.es|
      ensures |plan.points| == |plan.rs| && |plan.offs| == |plan.es| + 1
      ensures plan.points[j] < plan.offs[i] <==> plan.rs[j] < i
    {
      hide EntryOk, RestartOk, Contents;
      RestartFacts(plan, j);
      if plan.rs[j] < i {
        OffsetsIncrease(plan, plan.rs[j], i);
      } else if i < plan.rs[j] {
        OffsetsIncrease(plan, i, plan.rs[j]);
      }
    }

    method SeekToRestartPoint(index: nat)
      requires Shape() && index < numRestarts
      modifies this`key, this`restartIndex, this`valueAt, this`valueLength
      ensures restartIndex == index && key == [] && NextEntryOffset() == GetRestartPoint(index)
      ensures intact ==> |plan.rs| == numRestarts && Ready(plan, plan.rs[index], NextEntryOffset(), key, restartIndex)
    {
      hide Built, Unfixed, Ready;
      key := [];
      restartIndex := index;
      valueAt := GetRestartPoint(index);
      valueLength := 0;
      if intact {
        PointIs(index);
        PlanRestart(cmp, data, plan, index);
      }
    }

    static lemma PlanRestart(cmp: Order, data: Bytes, plan: Plan, index: nat)
      requires Built(cmp, data, plan) && index < |plan.rs| == |plan.points|
      ensures Ready(plan, plan.rs[index], plan.points[index], [], index)
      ensures index == 0 ==> plan.rs[index] == 0
      ensures plan.es != [] ==> plan.rs[index] < |plan.es|
      ensures plan.es == [] ==> plan.rs[index] == 0
    {
      hide EntryOk, RestartOk, Ready;
      RestartIsReady(plan, index);
      RestartFacts(plan, index);
    }

    /** From entry `at`, the next to parse is the one after it. */
    lemma MayParse()
      requires Inv() && intact && Valid()
      ensures Ready(plan, at + 1, NextEntryOffset(), key, restartIndex)
      ensures |plan.offs| == |plan.es| + 1 && at < |plan.es| && current == plan.offs[at]
              && NextEntryOffset() == plan.offs[at + 1]
      ensures |plan.rs| == numRestarts && restartIndex < numRestarts && plan.rs[restartIndex] <= at
    {
      hide EntryOk, Ready;
      StandingIsReady(plan, at, current, NextEntryOffset(), key, Value(), restartIndex);
    }

    method Next()
      requires Inv() && Valid()
      modifies this
      ensures Inv()
      ensures intact ==> at == old(at) + 1
    {
      hide Ready, Built, Standing;
      if intact { MayParse(); }
      var _ := ParseNextKey(at + 1);
    }

    /** Back to a restart point before the current entry, then forward to the entry whose
        end is where the current one starts. */
    method Prev()
      requires Inv() && Valid()
      modifies this
      ensures Inv()
      ensures intact ==> at == if old(at) == 0 then |plan.es| else old(at) - 1
    {
      hide Ready, Built, Standing, Unfixed;
      var original := current;
      ghost var from := at;
      if intact { MayParse(); }
      while GetRestartPoint(restartIndex) >= original
        invariant restartIndex < numRestarts && current == original && at == from && corrupt == old(corrupt)
        invariant valueAt == old(valueAt) && valueLength == old(valueLength)
        decreases restartIndex
      {
        if intact {
          PointIs(restartIndex);
          PointOrder(cmp, data, plan, restartIndex, from);
          PlanRestart(cmp, data, plan, restartIndex);
        }
        if restartIndex == 0 {
          current := restarts;
          restartIndex := numRestarts;
          at := |plan.es|;
          return;
        }
        restartIndex := restartIndex - 1;
      }
      if intact {
        PointIs(restartIndex);
        PointOrder(cmp, data, plan, restartIndex, from);
      }
      SeekToRestartPoint(restartIndex);
      ghost var i := if intact then plan.rs[restartIndex] else 0;
      var ok := ParseNextKey(i);
      while ok && NextEntryOffset() < original
        invariant Inv() && ok == Valid()
        invariant intact ==> ok && i < from && at == i
        decreases ok, restarts - NextEntryOffset()
      {
        if intact {
          MayParse();
          OffsetOrder(cmp, data, plan, at + 1, from);
        }
        i := i + 1;
        ok := ParseNextKey(i);
      }
      if intact {
        MayParse();
        OffsetOrder(cmp, data, plan, at + 1, from);
      }
    }

    static lemma OffsetOrder(cmp: Order, data: Bytes, plan: Plan, i: nat, j: nat)
      requires Built(cmp, data, plan) && i <= |plan.es| && j <= |plan.es|
      ensures |plan.offs| == |plan.es| + 1 && (plan.offs[i] < plan.offs[j] <==> i < j)
    {
      hide EntryOk, RestartOk, Contents;
      if i < j {
        OffsetsIncrease(plan, i, j);
      } else if j < i {
        OffsetsIncrease(plan, j, i);
      }
    }

    method SeekToFirst()
      requires Inv()
      modifies this
      ensures Inv()
      ensures intact ==> at == 0
    {
      hide Ready, Built, Standing, Unfixed;
      if intact {
        PointIs(0);
        PlanRestart(cmp, data, plan, 0);
      }
      SeekToRestartPoint(0);
      var _ := ParseNextKey(0);
    }

    method SeekToLast()
      requires Inv()
      modifies this
      ensures Inv()
      ensures intact ==> at == if plan.es == [] then 0 else |plan.es| - 1
    {
      hide Ready, Built, Standing, Unfixed;
      if intact {
        PointIs(numRestarts - 1);
        PlanRestart(cmp, data, plan, numRestarts - 1);
        BodyEnds(cmp, data, plan);
      }
      SeekToRestartPoint(numRestarts - 1);
      ghost var i := if intact then plan.rs[numRestarts - 1] else 0;
      var ok := ParseNextKey(i);
      while ok && NextEntryOffset() < restarts
        invariant Inv() && ok == Valid()
        invariant intact ==> at == i && (ok <==> plan.es != [])
        decreases ok, restarts - NextEntryOffset()
      {
        if intact {
          MayParse();
          OffsetOrder(cmp, data, plan, at + 1, |plan.es|);
        }
        i := i + 1;
        ok := ParseNextKey(i);
      }
      if intact && ok {
        MayParse();
        OffsetOrder(cmp, data, plan, at + 1, |plan.es|);
      }
    }

    /** The binary search of Seek: the last restart point with a key before the target, or
        the first restart point of all. */
    method LastRestartBefore(target: Bytes) returns (found: bool, left: nat)
      requires Shape()
      ensures found ==> left < numRestarts
      ensures intact ==>
                && found && (left > 0 ==> RestartBefore(cmp, plan, left, target))
                && (left + 1 < numRestarts ==> !RestartBefore(cmp, plan, left + 1, target))
    {
      hide Built, Unfixed, ParseEntry;
      left := 0;
      var right: nat := numRestarts - 1;
      while left < right
        invariant left <= right < numRestarts
        invariant intact ==>
          && (left > 0 ==> RestartBefore(cmp, plan, left, target))
          && (right + 1 < numRestarts ==> !RestartBefore(cmp, plan, right + 1, target))
        decreases right - left
      {
        var mid := (left + right + 1) / 2;
        var regionOffset := GetRestartPoint(mid);
        if intact {
          PointIs(mid);
          RestartKey(cmp, data, plan, mid);
        }
        var region := if regionOffset <= restarts then data[regionOffset..restarts] else [];
        var header := DecodeEntry(region);
        if header.None? || header.value.shared != 0 {
          return false, left;
        }
        EntryInside(region, header.value);
        var midKey := region[header.value.used..header.value.used + header.value.nonShared];
        if cmp(midKey, target) < 0 {
          left := mid;
        } else {
          right := mid - 1;
        }
      }
      found := true;
    }

    /** Lands on the first entry with a key at or past the target. */
    method Seek(target: Bytes)
      requires Inv()
      modifies this
      ensures Inv()
      ensures intact ==> forall k :: 0 <= k < at ==> cmp(plan.es[k].key, target) < 0
      ensures intact && at < |plan.es| ==> cmp(plan.es[at].key, target) >= 0
    {
      hide Ready, Built, Standing, Unfixed, ParseEntry;
      var found, left := LastRestartBefore(target);
      if !found {
        CorruptionError();
        return;
      }
      SeekToRestartPoint(left);
      if intact {
        PlanRestart(cmp, data, plan, left);
        BeforeRestart(cmp, data, plan, left, target);
      }
      ghost var i: nat := if intact then plan.rs[left] else 0;
      var ok := ParseNextKey(i);
      while ok && cmp(key, target) < 0
        invariant Inv() && ok == Valid()
        invariant intact ==> at == i
        invariant intact ==> forall k :: 0 <= k < i && k < |plan.es| ==> cmp(plan.es[k].key, target) < 0
        decreases ok, restarts - NextEntryOffset()
      {
        if intact {
          MayParse();
          KeyIs();
        }
        i := i + 1;
        ok := ParseNextKey(i);
      }
      if intact && ok { KeyIs(); }
    }

    /** The key at restart point j comes before the target. */
    static ghost predicate RestartBefore(cmp: Order, plan: Plan, j: nat, target: Bytes) {
      j < |plan.rs| && plan.rs[j] < |plan.es| && cmp(plan.es[plan.rs[j]].key, target) < 0
    }

    /** A restart point holds a whole key. */
    static lemma RestartKey(cmp: Order, data: Bytes, plan: Plan, j: nat)
      requires Built(cmp, data, plan) && 0 < j < |plan.points| && |plan.points| == |plan.rs|
      ensures plan.points[j] <= |plan.body| <= |data| && plan.rs[j] < |plan.es|
      ensures var region := data[plan.points[j]..|plan.body|];
              && ParseEntry(region).Some?
              && var h := ParseEntry(region).value;
                 && h.shared == 0 && h.used + h.nonShared <= |region|
                 && region[h.used..h.used + h.nonShared] == plan.es[plan.rs[j]].key
    {
      hide EntryOk, RestartOk, ParseEntry;
      RestartFacts(plan, j);
      assert plan.es != [];
      EntryParses(plan, plan.rs[j]);
      assert data[plan.points[j]..|plan.body|] == plan.body[plan.points[j]..];
      var region := data[plan.points[j]..|plan.body|];
      EntryInside(region, ParseEntry(region).value);
    }

    /** So do the keys of all entries before it. */
    static lemma BeforeRestart(cmp: Order, data: Bytes, plan: Plan, left: nat, target: Bytes)
      requires Built(cmp, data, plan) && left < |plan.rs| && (left > 0 ==> RestartBefore(cmp, plan, left, target))
      requires left == 0 ==> plan.rs[left] == 0
      ensures forall k :: 0 <= k < plan.rs[left] && k < |plan.es| ==> cmp(plan.es[k].key, target) < 0
    {
      hide EntryOk, RestartOk, Entries, Restarts, Contents;
      forall k | 0 <= k < plan.rs[left] && k < |plan.es|
        ensures cmp(plan.es[k].key, target) < 0
      {
        var key := plan.es[plan.rs[left]].key;
        assert cmp(plan.es[k].key, key) < 0 && cmp(key, target) < 0;
      }
    }

    lemma KeyIs()
      requires Inv() && intact && Valid()
      ensures at < |plan.es| && key == plan.es[at].key && Value() == plan.es[at].value
    {
      hide Built;
    }

    /** The current entry. */
    function Current(): (kv: KV)
      requires Inv() && Valid()
      reads this
      ensures intact ==> at < |plan.es| && kv == plan.es[at]
    {
      KV(key, Value())
    }

    static lemma BodyEnds(cmp: Order, data: Bytes, plan: Plan)
      requires Built(cmp, data, plan)
      ensures |plan.offs| == |plan.es| + 1 && plan.offs[|plan.es|] == |plan.body|
    {
    }

    static lemma EntryInside(s: Bytes, h: Header)
      requires ParseEntry(s) == Some(h)
      ensures h.used >= 3 && h.used + h.nonShared + h.valueLength <= |s|
    {
    }

    static lemma ReadyFacts(cmp: Order, data: Bytes, plan: Plan, i: nat, next: nat, key: Bytes, ri: nat)
      requires Built(cmp, data, plan) && Ready(plan, i, next, key, ri)
      ensures i <= |plan.es| && |plan.body| <= |data| && |plan.offs| == |plan.es| + 1 && |plan.rs| == |plan.points|
      ensures ri < |plan.rs| && plan.rs[ri] <= i && next == plan.offs[i]
      ensures next < |plan.body| <==> i < |plan.es|
      ensures i < |plan.es| ==>
                var entry := data[next..|plan.body|];
                && ParseEntry(entry).Some? && ParseEntry(entry).value.shared <= |key|
    {
      hide EntryOk, RestartOk, ParseEntry;
      if i < |plan.es| {
        OffsetsIncrease(plan, i, |plan.es|);
        EntryParses(plan, i);
        assert data[next..|plan.body|] == plan.body[next..];
      }
    }

    static lemma NowStanding(cmp: Order, data: Bytes, plan: Plan, i: nat, next: nat, key: Bytes, ri: nat, ri': nat)
      requires Built(cmp, data, plan) && Ready(plan, i, next, key, ri) && i < |plan.es|
      requires ri' < |plan.rs| && plan.rs[ri'] <= i && (ri' + 1 < |plan.rs| ==> plan.rs[ri' + 1] >= i)
      requires next <= |plan.body| <= |data| && ParseEntry(data[next..|plan.body|]).Some?
      requires ParseEntry(data[next..|plan.body|]).value.shared <= |key|
      ensures var entry := data[next..|plan.body|];
              var h := ParseEntry(entry).value;
              var valueAt := next + h.used + h.nonShared;
              && valueAt + h.valueLength <= |plan.body|
              && Standing(plan, i, next, valueAt + h.valueLength, key[..h.shared] + entry[h.used..h.used + h.nonShared],
                          data[valueAt..valueAt + h.valueLength], ri')
    {
      hide EntryOk, RestartOk, ParseEntry;
      EntryParses(plan, i);
      EntryFacts(plan, i);
      var entry := data[next..|plan.body|];
      assert entry == plan.body[next..];
      var h := ParseEntry(entry).value;
      var n := |plan.es[i].key| - plan.shares[i];
      assert data[next + h.used + n..next + h.used + n + h.valueLength]
        == entry[h.used + n..h.used + n + h.valueLength];
      BlockBuilder.Joined(plan.es[i].key, plan.es[i].key, h.shared);
    }
  }

  /** Block's constructor and NewIterator: nothing to iterate over in contents without room
      for their restart points, or with none. */
  method NewIterator(cmp: Order, contents: Bytes, ghost intact: bool, ghost plan: Plan) returns (it: Iter?)
    requires intact ==> Built(cmp, contents, plan)
    ensures it != null ==>
              && fresh(it) && it.Inv() && it.intact == intact && it.plan == plan
              && it.data == contents && it.cmp == cmp
    ensures intact ==> it != null
  {
    hide Built, Unfixed;
    if intact {
      BuiltReads(cmp, contents, plan);
    }
    if |contents| < 4 {
      return null;
    }
    var numRestarts := Unfixed(contents[|contents| - 4..]);
    if numRestarts > (|contents| - 4) / 4 || numRestarts == 0 {
      return null;
    }
    it := new Iter(cmp, contents, |contents| - (1 + numRestarts) * 4, numRestarts, intact, plan);
  }

  lemma BuiltReads(cmp: Order, contents: Bytes, plan: Plan)
    requires Built(cmp, contents, plan)
    ensures |contents| == |plan.body| + 4 * |plan.points| + 4
    ensures Unfixed(contents[|contents| - 4..]) == |plan.points| > 0
  {
    hide EntryOk, RestartOk;
    PointsFit(plan);
    ArrayReads(contents, plan, 0);
  }

  /** A block just finished, opened for reading. */
  method Open(b: BlockBuilder, cmp: Order) returns (it: Iter, contents: Bytes)
    requires b.Valid() && Lawful(cmp) && Increasing(cmp, b.es)
    requires |b.buffer| < MAX32 && |b.restarts| < MAX32
    modifies b
    ensures fresh(it) && it.Inv() && it.intact && it.plan.es == old(b.es) && it.data == contents && it.cmp == cmp
  {
    ghost var plan := Plan(b.buffer, b.restarts, b.es, b.offs, b.shares, b.rs);
    PlanBuilt(cmp, plan, b.interval, b.counter, b.lastKey);
    contents := b.Finish();
    var iter := NewIterator(cmp, contents, true, plan);
    it := iter;
  }

  lemma PlanBuilt(cmp: Order, plan: Plan, interval: nat, counter: nat, lastKey: Bytes)
    requires Building(interval, plan.body, plan.points, counter, lastKey, plan.es, plan.offs, plan.shares, plan.rs)
    requires Lawful(cmp) && Increasing(cmp, plan.es) && |plan.body| < MAX32 && |plan.points| < MAX32
    ensures Built(cmp, Contents(plan.body, plan.points), plan)
  {
    hide EntryOk, RestartOk;
  }

  lemma PointsFit(plan: Plan)
    requires Entries(plan.body, plan.es, plan.offs, plan.shares) && |plan.body| < MAX32
    requires Restarts(plan.points, plan.es, plan.offs, plan.shares, plan.rs)
    ensures plan.points[0] < MAX32
  {
    hide EntryOk;
    RestartFacts(plan, 0);
  }

  /** A block iterates back, forwards, to exactly the entries it was built from. */
  method ReadBack(it: Iter) returns (out: seq<KV>)
    requires it.Inv() && it.intact
    modifies it
    ensures out == it.plan.es && it.Inv()
  {
    hide Built, Standing;
    it.SeekToFirst();
    out := [];
    while it.Valid()
      invariant it.Inv() && it.at <= |it.plan.es| && out == it.plan.es[..it.at]
      decreases |it.plan.es| - it.at
    {
      out := out + [it.Current()];
      it.Next();
    }
  }
}
