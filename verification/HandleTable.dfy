/** The hash table of the block cache (util/cache.cc): buckets are lists threaded through
    the cache entries themselves.
 */
module HandleTables {
  import opened CacheLists
  import opened Comparator
  import opened Options

  /** The parts of an LRUHandle that never change.  Handles are numbered as allocated. */
  datatype Item = Item(key: Bytes, hash: nat, charge: nat, value: Bytes)

  type Link = Option<nat>

  /** An LRUHandle**: a bucket's slot, or the next_hash field of a handle. */
  datatype Pointer = Bucket(b: nat) | NextOf(h: nat)

  function LinkAt(chain: seq<nat>, i: nat): Link {
    if i < |chain| then Some(chain[i]) else None
  }

  /** Following next_hash from `first` visits exactly the chain. */
  predicate Chained(first: Link, nextHash: seq<Link>, chain: seq<nat>) {
    && first == LinkAt(chain, 0)
    && (forall i :: 0 <= i < |chain| ==> chain[i] < |nextHash|)
    && forall i {:trigger nextHash[chain[i]]} :: 0 <= i < |chain| ==> nextHash[chain[i]] == LinkAt(chain, i + 1)
  }

  predicate PowerOfTwo(n: nat) {
    n == 1 || (n > 1 && n % 2 == 0 && PowerOfTwo(n / 2))
  }

  predicate Matches(item: Item, key: Bytes, hash: nat) {
    item.hash == hash && item.key == key
  }

  /** hash & (length - 1), the length being a power of two */
  function Home(hash: nat, length: nat): (b: nat)
    requires length > 0
    ensures b < length
  {
    hash % length
  }

  /** Bucket b is a list of exactly the members that belong there, each once. */
  ghost predicate BucketOk(items: seq<Item>, n: nat, b: nat, first: Link, nextHash: seq<Link>, chain: seq<nat>,
                           members: set<nat>)
    requires n > 0
  {
    Chained(first, nextHash, chain) && Distinct(chain) && AtHome(items, n, b, chain, members)
  }

  ghost predicate AtHome(items: seq<Item>, n: nat, b: nat, chain: seq<nat>, members: set<nat>)
    requires n > 0
  {
    forall h: nat :: h in chain <==> h in members && h < |items| && Home(items[h].hash, n) == b
  }

  ghost predicate Threaded(items: seq<Item>, list: seq<Link>, nextHash: seq<Link>, chains: seq<seq<nat>>,
                           members: set<nat>) {
    && |list| == |chains| > 0 && |nextHash| == |items|
    && (forall h :: h in members ==> h < |items|)
    && forall b :: 0 <= b < |list| ==> BucketOk(items, |list|, b, list[b], nextHash, chains[b], members)
  }

  /** No two members carry the same hash and key. */
  ghost predicate OneEach(items: seq<Item>, members: set<nat>) {
    forall g, h :: g in members && h in members && g != h && g < |items| && h < |items| ==>
      !Matches(items[g], items[h].key, items[h].hash)
  }

  /** The member with this hash and key, if there is one. */
  ghost predicate Holds(items: seq<Item>, members: set<nat>, key: Bytes, hash: nat, e: Link) {
    match e
    case Some(h) => h in members && h < |items| && Matches(items[h], key, hash)
    case None => forall h :: h in members && h < |items| ==> !Matches(items[h], key, hash)
  }

  /** A bucket is not concerned by changes to other handles. */
  lemma BucketKeeps(items: seq<Item>, n: nat, b: nat, first: Link, nextHash: seq<Link>, nextHash': seq<Link>,
                    chain: seq<nat>, members: set<nat>, members': set<nat>)
    requires n > 0 && BucketOk(items, n, b, first, nextHash, chain, members)
    requires |nextHash'| == |nextHash| && forall i :: 0 <= i < |chain| ==> nextHash'[chain[i]] == nextHash[chain[i]]
    requires forall h: nat :: h < |items| && Home(items[h].hash, n) == b ==> (h in members <==> h in members')
    ensures BucketOk(items, n, b, first, nextHash', chain, members')
  {
    hide Home;
  }

  lemma UnlinkBucket(items: seq<Item>, n: nat, b: nat, first: Link, nextHash: seq<Link>, chain: seq<nat>,
                     members: set<nat>,
                     i: nat, first': Link, nextHash': seq<Link>)
    requires n > 0 && BucketOk(items, n, b, first, nextHash, chain, members) && i < |chain|
    requires if i == 0 then first' == nextHash[chain[0]] && nextHash' == nextHash
             else first' == first && nextHash' == nextHash[chain[i - 1] := nextHash[chain[i]]]
    ensures BucketOk(items, n, b, first', nextHash', Without(chain, i), members - {chain[i]})
  {
    hide Home, Chained, Distinct;
    UnlinkChain(first, nextHash, chain, i, first', nextHash');
    WithoutMembers(chain, i, chain[i]);
    forall h
      ensures h in Without(chain, i) <==> h in chain && h != chain[i]
    {
      WithoutMembers(chain, i, h);
    }
  }

  lemma UnlinkChain(first: Link, nextHash: seq<Link>, chain: seq<nat>, i: nat, first': Link, nextHash': seq<Link>)
    requires Chained(first, nextHash, chain) && Distinct(chain) && i < |chain|
    requires if i == 0 then first' == nextHash[chain[0]] && nextHash' == nextHash
             else first' == first && nextHash' == nextHash[chain[i - 1] := nextHash[chain[i]]]
    ensures Chained(first', nextHash', Without(chain, i))
  {
    var s := Without(chain, i);
    forall k | 0 <= k < |s|
      ensures s[k] < |nextHash'| && nextHash'[s[k]] == LinkAt(s, k + 1)
    {
      var o := if k < i then k else k + 1;
      assert s[k] == chain[o] && nextHash[chain[o]] == LinkAt(chain, o + 1);
    }
  }

  function Placed(chain: seq<nat>, i: nat, h: nat): (s: seq<nat>)
    requires i <= |chain|
    ensures |s| == if i < |chain| then |chain| else i + 1
    ensures forall k :: 0 <= k < |s| ==> s[k] == if k == i then h else chain[k]
  {
    if i < |chain| then chain[i := h] else chain + [h]
  }

  lemma InPlaced(chain: seq<nat>, i: nat, h: nat, g: nat)
    requires i <= |chain| && (g == h || (g in chain && !(i < |chain| && g == chain[i])))
    ensures g in Placed(chain, i, h)
  {
    assert Placed(chain, i, h)[i] == h;
    if g != h {
      var k :| 0 <= k < |chain| && chain[k] == g;
      assert Placed(chain, i, h)[k] == g;
    }
  }

  function Displaced(members: set<nat>, chain: seq<nat>, i: nat, h: nat): set<nat> {
    (if i < |chain| then members - {chain[i]} else members) + {h}
  }

  lemma LinkChain(first: Link, nextHash: seq<Link>, chain: seq<nat>, i: nat, h: nat, first': Link, nextHash': seq<Link>)
    requires Chained(first, nextHash, chain) && Distinct(chain) && i <= |chain| && h < |nextHash| && h !in chain
    requires i > 0 ==> chain[i - 1] < |nextHash|
    requires var linked := nextHash[h := LinkAt(chain, i + 1)];
             if i == 0 then first' == Some(h) && nextHash' == linked
             else first' == first && nextHash' == linked[chain[i - 1] := Some(h)]
    ensures Chained(first', nextHash', Placed(chain, i, h))
  {
    var s := Placed(chain, i, h);
    forall k | 0 <= k < |s|
      ensures s[k] < |nextHash'| && nextHash'[s[k]] == LinkAt(s, k + 1)
    {
      assert k != i ==> s[k] == chain[k] && nextHash[chain[k]] == LinkAt(chain, k + 1);
    }
  }

  lemma LinkBucket(items: seq<Item>, n: nat, b: nat, first: Link, nextHash: seq<Link>, chain: seq<nat>,
                   members: set<nat>,
                   i: nat, h: nat, first': Link, nextHash': seq<Link>)
    requires n > 0 && BucketOk(items, n, b, first, nextHash, chain, members) && i <= |chain|
    requires h < |items| == |nextHash| && h !in members && Home(items[h].hash, n) == b
    requires i > 0 ==> chain[i - 1] < |items|
    requires var linked := nextHash[h := LinkAt(chain, i + 1)];
             if i == 0 then first' == Some(h) && nextHash' == linked
             else first' == first && nextHash' == linked[chain[i - 1] := Some(h)]
    ensures BucketOk(items, n, b, first', nextHash', Placed(chain, i, h), Displaced(members, chain, i, h))
  {
    hide Home, Chained;
    LinkChain(first, nextHash, chain, i, h, first', nextHash');
    forall g | g in Displaced(members, chain, i, h) && g < |items| && Home(items[g].hash, n) == b
      ensures g in Placed(chain, i, h)
    {
      InPlaced(chain, i, h, g);
    }
  }

  /** Unlinking the handle at place i of bucket b. */
  lemma Unthread(items: seq<Item>, list: seq<Link>, nextHash: seq<Link>, chains: seq<seq<nat>>, members: set<nat>,
                 b: nat, i: nat, list': seq<Link>, nextHash': seq<Link>)
    requires Threaded(items, list, nextHash, chains, members) && b < |list| && i < |chains[b]|
    requires if i == 0 then list' == list[b := nextHash[chains[b][0]]] && nextHash' == nextHash
             else list' == list && nextHash' == nextHash[chains[b][i - 1] := nextHash[chains[b][i]]]
    ensures Threaded(items, list', nextHash', chains[b := Without(chains[b], i)], members - {chains[b][i]})
  {
    hide Home, BucketOk;
    var members', chains' := members - {chains[b][i]}, chains[b := Without(chains[b], i)];
    UnlinkBucket(items, |list|, b, list[b], nextHash, chains[b], members, i, list'[b], nextHash');
    Separate(items, list, nextHash, chains, members, b, b);
    forall c | 0 <= c < |list|
      ensures BucketOk(items, |list|, c, list'[c], nextHash', chains'[c], members')
    {
      if c != b {
        Separate(items, list, nextHash, chains, members, b, c);
        BucketKeeps(items, |list|, c, list[c], nextHash, nextHash', chains[c], members, members');
      }
    }
  }

  lemma Separate(items: seq<Item>, list: seq<Link>, nextHash: seq<Link>, chains: seq<seq<nat>>, members: set<nat>,
                 b: nat, c: nat)
    requires Threaded(items, list, nextHash, chains, members) && b < |list| && c < |list|
    ensures b != c ==> forall i, j :: 0 <= i < |chains[b]| && 0 <= j < |chains[c]| ==> chains[b][i] != chains[c][j]
    ensures forall i :: 0 <= i < |chains[b]| ==> chains[b][i] < |items| && Home(items[chains[b][i]].hash, |list|) == b
    ensures forall j :: 0 <= j < |chains[c]| ==> chains[c][j] < |items| && chains[c][j] in members
  {
    hide Home;
    assert BucketOk(items, |list|, b, list[b], nextHash, chains[b], members);
    assert BucketOk(items, |list|, c, list[c], nextHash, chains[c], members);
    forall i, j | b != c && 0 <= i < |chains[b]| && 0 <= j < |chains[c]|
      ensures chains[b][i] != chains[c][j]
    {
      assert chains[b][i] in chains[b] && chains[c][j] in chains[c];
    }
  }

  /** Linking a new handle in the place of the one at i, or at the end of bucket b. */
  lemma Thread(items: seq<Item>, list: seq<Link>, nextHash: seq<Link>, chains: seq<seq<nat>>, members: set<nat>,
               b: nat, i: nat, h: nat, list': seq<Link>, nextHash': seq<Link>)
    requires Threaded(items, list, nextHash, chains, members) && b < |list| && i <= |chains[b]|
    requires h < |items| && h !in members && Home(items[h].hash, |list|) == b
    requires i > 0 ==> chains[b][i - 1] < |items|
    requires var linked := nextHash[h := LinkAt(chains[b], i + 1)];
             if i == 0 then list' == list[b := Some(h)] && nextHash' == linked
             else list' == list && nextHash' == linked[chains[b][i - 1] := Some(h)]
    ensures Threaded(items, list', nextHash', chains[b := Placed(chains[b], i, h)], Displaced(members, chains[b], i, h))
  {
    hide Home, BucketOk;
    var members' := Displaced(members, chains[b], i, h);
    LinkBucket(items, |list|, b, list[b], nextHash, chains[b], members, i, h, list'[b], nextHash');
    forall c | 0 <= c < |list| && c != b
      ensures BucketOk(items, |list|, c, list'[c], nextHash', chains[c], members')
    {
      Separate(items, list, nextHash, chains, members, b, c);
      BucketKeeps(items, |list|, c, list[c], nextHash, nextHash', chains[c], members, members');
    }
  }

  lemma HoldsIffChained(items: seq<Item>, list: seq<Link>, nextHash: seq<Link>, chains: seq<seq<nat>>,
                        members: set<nat>,
                        key: Bytes, hash: nat, i: nat)
    requires Threaded(items, list, nextHash, chains, members) && OneEach(items, members)
    requires var chain := chains[Home(hash, |list|)];
             && i <= |chain|
             && (forall k :: 0 <= k < i ==> chain[k] < |items| && !Matches(items[chain[k]], key, hash))
             && (i < |chain| ==> chain[i] < |items| && Matches(items[chain[i]], key, hash))
    ensures Holds(items, members, key, hash, LinkAt(chains[Home(hash, |list|)], i))
  {
    hide Home, Chained;
    var b := Home(hash, |list|);
    assert BucketOk(items, |list|, b, list[b], nextHash, chains[b], members);
  }

  lemma Grows(items: seq<Item>, list: seq<Link>, nextHash: seq<Link>, chains: seq<seq<nat>>, members: set<nat>,
              item: Item)
    requires Threaded(items, list, nextHash, chains, members)
    ensures Threaded(items + [item], list, nextHash + [None], chains, members)
  {
    hide Home;
    forall b | 0 <= b < |list|
      ensures BucketOk(items + [item], |list|, b, list[b], nextHash + [None], chains[b], members)
    {
      assert BucketOk(items, |list|, b, list[b], nextHash, chains[b], members);
    }
  }

  class HandleTable {
    var length: nat
    var elems: nat
    var list: seq<Link>
    var nextHash: seq<Link>  // one field of every handle; only the table uses it

    ghost var chains: seq<seq<nat>>
    ghost var members: set<nat>

    ghost predicate Valid(items: seq<Item>)
      reads this
    {
      && length == |list| && length >= 4 && PowerOfTwo(length)
      && Threaded(items, list, nextHash, chains, members)
      && OneEach(items, members)
      && elems == |members|
    }

    constructor (items: seq<Item>)
      ensures Valid(items) && members == {}
    {
      length, elems := 4, 0;
      list := [None, None, None, None];
      nextHash := seq(|items|, _ => None);
      chains, members := [[], [], [], []], {};
    }

    /** The next_hash field of a handle just allocated. */
    method Extend(items: seq<Item>, item: Item)
      requires Valid(items)
      modifies this`nextHash
      ensures Valid(items + [item])
    {
      hide Threaded, PowerOfTwo;
      Grows(items, list, nextHash, chains, members, item);
      MembersInBounds(items, list, nextHash, chains, members);
      nextHash := nextHash + [None];
    }

    static lemma MembersInBounds(items: seq<Item>, list: seq<Link>, nextHash: seq<Link>, chains: seq<seq<nat>>,
                                 members: set<nat>)
      requires Threaded(items, list, nextHash, chains, members)
      ensures forall h :: h in members ==> h < |items|
      ensures |items| == |nextHash| && |chains| == |list| > 0
    {
    }

    predicate Proper(ptr: Pointer)
      reads this
    {
      match ptr
      case Bucket(b) => b < |list|
      case NextOf(h) => h < |nextHash|
    }

    /** *ptr */
    function Load(ptr: Pointer): Link
      requires Proper(ptr)
      reads this
    {
      match ptr
      case Bucket(b) => list[b]
      case NextOf(h) => nextHash[h]
    }

    method Store(ptr: Pointer, link: Link)
      requires Proper(ptr)
      modifies this`list, this`nextHash
      ensures list == if ptr.Bucket? then old(list)[ptr.b := link] else old(list)
      ensures nextHash == if ptr.NextOf? then old(nextHash)[ptr.h := link] else old(nextHash)
    {
      match ptr
      case Bucket(b) => list := list[b := link];
      case NextOf(h) => nextHash := nextHash[h := link];
    }

    /** ptr is the slot that links place i of bucket b. */
    ghost predicate PointsAt(ptr: Pointer, b: nat, i: nat)
      reads this
    {
      && b < |list| == |chains| && i <= |chains[b]| && Proper(ptr)
      && ptr == (if i == 0 then Bucket(b) else NextOf(chains[b][i - 1]))
      && Load(ptr) == LinkAt(chains[b], i)
    }

    /** The slot of the matching entry, or the trailing slot of its bucket. */
    method FindPointer(items: seq<Item>, key: Bytes, hash: nat) returns (ptr: Pointer, ghost i: nat)
      requires Valid(items)
      ensures PointsAt(ptr, Home(hash, length), i)
      ensures Holds(items, members, key, hash, Load(ptr))
    {
      hide Home, PowerOfTwo, OneEach, Holds, Threaded;
      var b := Home(hash, length);
      ChainFacts(items, list, nextHash, chains, members, b);
      ghost var chain := chains[b];
      ptr := Bucket(b);
      i := 0;
      while Load(ptr).Some? && !Matches(items[Load(ptr).value], key, hash)
        invariant i <= |chain| && PointsAt(ptr, b, i)
        invariant forall k :: 0 <= k < i ==> !Matches(items[chain[k]], key, hash)
        decreases |chain| - i
      {
        ptr := NextOf(Load(ptr).value);
        i := i + 1;
      }
      HoldsIffChained(items, list, nextHash, chains, members, key, hash, i);
    }

    static lemma ChainFacts(items: seq<Item>, list: seq<Link>, nextHash: seq<Link>, chains: seq<seq<nat>>,
                            members: set<nat>, b: nat)
      requires Threaded(items, list, nextHash, chains, members) && b < |list|
      ensures |chains| == |list| && |nextHash| == |items| && list[b] == LinkAt(chains[b], 0)
      ensures forall i :: 0 <= i < |chains[b]| ==>
                chains[b][i] < |items| && nextHash[chains[b][i]] == LinkAt(chains[b], i + 1)
      ensures forall i :: 0 <= i < |chains[b]| ==> chains[b][i] in members
    {
      hide Home;
      assert BucketOk(items, |list|, b, list[b], nextHash, chains[b], members);
    }

    method Lookup(items: seq<Item>, key: Bytes, hash: nat) returns (e: Link)
      requires Valid(items)
      ensures Holds(items, members, key, hash, e)
    {
      var ptr, _ := FindPointer(items, key, hash);
      e := Load(ptr);
    }

    /** Adds h, in the place of the entry with the same key if there is one. */
    method Insert(items: seq<Item>, h: nat) returns (replaced: Link)
      requires Valid(items) && h < |items| && h !in members
      modifies this
      ensures Valid(items)
      ensures Holds(items, old(members), items[h].key, items[h].hash, replaced)
      ensures members == (if replaced.Some? then old(members) - {replaced.value} else old(members)) + {h}
    {
      hide Home, PowerOfTwo, OneEach, Holds, Threaded;
      ghost var b := Home(items[h].hash, length);
      var ptr, i := FindPointer(items, items[h].key, items[h].hash);
      replaced := Load(ptr);
      ChainFacts(items, list, nextHash, chains, members, b);
      nextHash := nextHash[h := if replaced.None? then None else nextHash[replaced.value]];
      Store(ptr, Some(h));
      Thread(items, old(list), old(nextHash), chains, members, b, i, h, list, nextHash);
      Replaced(items, members, h, replaced);
      chains, members := chains[b := Placed(chains[b], i, h)], Displaced(members, chains[b], i, h);
      if replaced.None? {
        elems := elems + 1;
        if elems > length {
          Resize(items);
        }
      }
    }

    /** Exchanging the entry for a key, or adding one for a new key, keeps keys distinct. */
    static lemma Replaced(items: seq<Item>, members: set<nat>, h: nat, replaced: Link)
      requires OneEach(items, members) && h < |items| && h !in members
      requires Holds(items, members, items[h].key, items[h].hash, replaced)
      ensures OneEach(items, (if replaced.Some? then members - {replaced.value} else members) + {h})
      ensures replaced.Some? ==> |members - {replaced.value} + {h}| == |members|
    {
    }

    method Remove(items: seq<Item>, key: Bytes, hash: nat) returns (removed: Link)
      requires Valid(items)
      modifies this
      ensures Valid(items)
      ensures Holds(items, old(members), key, hash, removed)
      ensures members == if removed.Some? then old(members) - {removed.value} else old(members)
    {
      hide Home, PowerOfTwo, OneEach, Holds, Threaded;
      ghost var b := Home(hash, length);
      var ptr, i := FindPointer(items, key, hash);
      removed := Load(ptr);
      if removed.Some? {
        UnlinkAt(items, ptr, b, i);
        StillOneEach(items, old(members), removed.value);
        elems := elems - 1;
      }
    }

    /** *ptr = result->next_hash */
    method UnlinkAt(items: seq<Item>, ptr: Pointer, ghost b: nat, ghost i: nat)
      requires Threaded(items, list, nextHash, chains, members) && PointsAt(ptr, b, i) && Load(ptr).Some?
      modifies this`list, this`nextHash, this`chains, this`members
      ensures Threaded(items, list, nextHash, chains, members) && |list| == |old(list)|
      ensures old(Load(ptr)).value in old(members) && members == old(members) - {old(Load(ptr)).value}
    {
      hide Home, Threaded;
      ghost var list0, nextHash0, h := list, nextHash, Load(ptr).value;
      ChainFacts(items, list, nextHash, chains, members, b);
      Store(ptr, nextHash[Load(ptr).value]);
      Unthread(items, list0, nextHash0, chains, members, b, i, list, nextHash);
      chains, members := chains[b := Without(chains[b], i)], members - {h};
    }

    static lemma StillOneEach(items: seq<Item>, members: set<nat>, h: nat)
      requires OneEach(items, members) && h in members
      ensures OneEach(items, members - {h}) && |members - {h}| == |members| - 1
    {
    }

    /** Moves every entry to a table with at least as many buckets as entries. */
    method Resize(items: seq<Item>)
      requires Valid(items)
      modifies this
      ensures Valid(items) && members == old(members) && elems == old(elems) && elems <= length
    {
      hide Home, PowerOfTwo, OneEach, Threaded, Elements, UpTo;
      var newLength := 4;
      FourIsPower();
      while newLength < elems
        invariant newLength >= 4 && PowerOfTwo(newLength)
        modifies {}
        decreases elems - newLength
      {
        DoublePower(newLength);
        newLength := newLength * 2;
      }
      var newList: seq<Link> := seq(newLength, _ => None);
      var count := 0;
      ghost var newChains: seq<seq<nat>>, moved := seq(newLength, _ => []), {};
      MembersInBounds(items, list, nextHash, chains, members);
      NoneThreaded(items, newList, nextHash, newChains);
      UpToNone(items, length, members);
      ghost var nextHash0 := nextHash;
      for i := 0 to length
        invariant |nextHash| == |nextHash0| == |items| && |newList| == newLength
        invariant Threaded(items, newList, nextHash, newChains, moved)
        invariant forall h: nat :: h < |items| && h !in moved ==> nextHash[h] == nextHash0[h]
        invariant moved == UpTo(items, length, members, i) && count == |moved|
        modifies this`nextHash
      {
        ChainFacts(items, list, nextHash0, chains, members, i);
        ChainIsBucket(items, list, nextHash0, chains, members, i);
        NotYetMoved(items, length, members, i, chains[i]);
        newList, count, newChains, moved :=
          MoveChain(items, list[i], newList, count, nextHash0, chains[i], newChains, moved);
        UpToNext(items, length, members, i, chains[i]);
      }
      UpToAll(items, length, members);
      assert elems == count;
      list := newList;
      length := newLength;
      chains := newChains;
    }

    /** The inner loop of Resize: the chain that starts at `first` goes to the new buckets. */
    method MoveChain(items: seq<Item>, first: Link, list0: seq<Link>, count0: nat, ghost nextHash0: seq<Link>,
                     ghost chain: seq<nat>, ghost chains0: seq<seq<nat>>, ghost moved0: set<nat>)
      returns (newList: seq<Link>, count: nat, ghost newChains: seq<seq<nat>>, ghost moved: set<nat>)
      requires |nextHash| == |nextHash0| == |items| && Threaded(items, list0, nextHash, chains0, moved0)
      requires forall h: nat :: h < |items| && h !in moved0 ==> nextHash[h] == nextHash0[h]
      requires Chained(first, nextHash0, chain) && Distinct(chain) && count0 == |moved0|
      requires forall i :: 0 <= i < |chain| ==> chain[i] < |items| && chain[i] !in moved0
      modifies this`nextHash
      ensures |nextHash| == |items| && |newList| == |list0| && Threaded(items, newList, nextHash, newChains, moved)
      ensures forall h: nat :: h < |items| && h !in moved ==> nextHash[h] == nextHash0[h]
      ensures moved == moved0 + Elements(chain) && count == |moved|
    {
      hide Home, Threaded, Elements;
      var h := first;
      ghost var j := 0;
      newList, count, newChains, moved := list0, count0, chains0, moved0;
      ListNotEmpty(items, list0, nextHash, chains0, moved0);
      ElementsStart(chain);
      while h.Some?
        invariant |nextHash| == |items| && |newList| == |list0|
        invariant j <= |chain| && h == LinkAt(chain, j)
        invariant Threaded(items, newList, nextHash, newChains, moved)
        invariant forall h: nat :: h < |items| && h !in moved ==> nextHash[h] == nextHash0[h]
        invariant moved == moved0 + Elements(chain[..j]) && count == |moved|
        decreases |chain| - j
      {
        var e := h.value;
        ElementsGrow(chain, j);
        assert e !in moved;
        var next := nextHash[e];
        var b := Home(items[e].hash, |newList|);
        ListNotEmpty(items, newList, nextHash, newChains, moved);
        Push(items, newList, nextHash, newChains, moved, e);
        nextHash := nextHash[e := newList[b]];
        newList := newList[b := Some(e)];
        newChains := newChains[b := [e] + newChains[b]];
        moved := moved + {e};
        h := next;
        count := count + 1;
        j := j + 1;
      }
      assert chain[..j] == chain;
    }

    static lemma ListNotEmpty(items: seq<Item>, list: seq<Link>, nextHash: seq<Link>, chains: seq<seq<nat>>,
                              members: set<nat>)
      requires Threaded(items, list, nextHash, chains, members)
      ensures |list| == |chains| > 0
    {
    }
  }

  lemma FourIsPower()
    ensures PowerOfTwo(4)
  {
    assert PowerOfTwo(2);
  }

  lemma DoublePower(n: nat)
    requires PowerOfTwo(n)
    ensures PowerOfTwo(n * 2)
  {
    assert (n * 2) % 2 == 0 && (n * 2) / 2 == n;
  }

  function Elements(chain: seq<nat>): set<nat> {
    set h | h in chain
  }

  lemma ElementsStart(chain: seq<nat>)
    ensures Elements(chain[..0]) == {}
  {
  }

  lemma ElementsGrow(chain: seq<nat>, j: nat)
    requires j < |chain| && Distinct(chain)
    ensures Elements(chain[..j + 1]) == Elements(chain[..j]) + {chain[j]}
    ensures chain[j] !in Elements(chain[..j])
  {
    assert chain[..j + 1] == chain[..j] + [chain[j]];
  }

  /** The members of the buckets before bucket i. */
  ghost function UpTo(items: seq<Item>, n: nat, members: set<nat>, i: nat): set<nat>
    requires n > 0
  {
    set h | h in members && h < |items| && Home(items[h].hash, n) < i
  }

  lemma UpToNone(items: seq<Item>, n: nat, members: set<nat>)
    requires n > 0
    ensures UpTo(items, n, members, 0) == {}
  {
  }

  lemma UpToAll(items: seq<Item>, n: nat, members: set<nat>)
    requires n > 0 && forall h :: h in members ==> h < |items|
    ensures UpTo(items, n, members, n) == members
  {
  }

  lemma UpToNext(items: seq<Item>, n: nat, members: set<nat>, i: nat, chain: seq<nat>)
    requires n > 0 && Distinct(chain) && AtHome(items, n, i, chain, members)
    ensures UpTo(items, n, members, i + 1) == UpTo(items, n, members, i) + Elements(chain)
  {
    hide Home;
  }

  lemma NotYetMoved(items: seq<Item>, n: nat, members: set<nat>, i: nat, chain: seq<nat>)
    requires n > 0 && AtHome(items, n, i, chain, members)
    ensures forall j :: 0 <= j < |chain| ==> chain[j] < |items| && chain[j] !in UpTo(items, n, members, i)
  {
    hide Home;
    forall j | 0 <= j < |chain|
      ensures chain[j] < |items| && chain[j] !in UpTo(items, n, members, i)
    {
      assert chain[j] in chain;
    }
  }

  lemma ChainIsBucket(items: seq<Item>, list: seq<Link>, nextHash: seq<Link>, chains: seq<seq<nat>>,
                      members: set<nat>, b: nat)
    requires Threaded(items, list, nextHash, chains, members) && b < |list|
    ensures Distinct(chains[b]) && AtHome(items, |list|, b, chains[b], members)
    ensures forall h :: h in members ==> h < |items|
  {
    assert BucketOk(items, |list|, b, list[b], nextHash, chains[b], members);
  }

  lemma NoneThreaded(items: seq<Item>, list: seq<Link>, nextHash: seq<Link>, chains: seq<seq<nat>>)
    requires |list| == |chains| > 0 && |nextHash| == |items|
    requires forall b :: 0 <= b < |list| ==> list[b] == None && chains[b] == []
    ensures Threaded(items, list, nextHash, chains, {})
  {
    hide Home;
    forall b | 0 <= b < |list|
      ensures BucketOk(items, |list|, b, list[b], nextHash, chains[b], {})
    {
    }
  }

  lemma PushBucket(items: seq<Item>, n: nat, b: nat, first: Link, nextHash: seq<Link>, chain: seq<nat>,
                   members: set<nat>, h: nat)
    requires n > 0 && BucketOk(items, n, b, first, nextHash, chain, members)
    requires h < |items| == |nextHash| && h !in members && Home(items[h].hash, n) == b
    ensures BucketOk(items, n, b, Some(h), nextHash[h := first], [h] + chain, members + {h})
  {
    hide Home;
    var s, nextHash' := [h] + chain, nextHash[h := first];
    forall k | 0 <= k < |s|
      ensures s[k] < |nextHash'| && nextHash'[s[k]] == LinkAt(s, k + 1)
    {
      assert k > 0 ==> nextHash[chain[k - 1]] == LinkAt(chain, k);
    }
    assert Chained(Some(h), nextHash', s);
  }

  /** Linking a handle in at the front of its bucket. */
  lemma Push(items: seq<Item>, list: seq<Link>, nextHash: seq<Link>, chains: seq<seq<nat>>, members: set<nat>, h: nat)
    requires Threaded(items, list, nextHash, chains, members)
    requires h < |items| && h !in members
    ensures var b := Home(items[h].hash, |list|);
            Threaded(items, list[b := Some(h)], nextHash[h := list[b]], chains[b := [h] + chains[b]], members + {h})
  {
    hide Home, BucketOk;
    var b := Home(items[h].hash, |list|);
    var list', nextHash', chains' := list[b := Some(h)], nextHash[h := list[b]], chains[b := [h] + chains[b]];
    PushBucket(items, |list|, b, list[b], nextHash, chains[b], members, h);
    forall c | 0 <= c < |list|
      ensures BucketOk(items, |list|, c, list'[c], nextHash', chains'[c], members + {h})
    {
      if c != b {
        Separate(items, list, nextHash, chains, members, b, c);
        BucketKeeps(items, |list|, c, list[c], nextHash, nextHash', chains[c], members, members + {h});
      }
    }
  }
}
