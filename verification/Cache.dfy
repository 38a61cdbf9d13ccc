/** One shard of the block cache (util/cache.cc): a hash table, a list of the entries only
    the cache refers to, a list of those in use, and reference counts that must agree.
 */
module LRUCaches {
  import opened CacheLists
  import opened Comparator
  import opened HandleTables
  import opened Options

  /** Entries 0 and 1 are the list heads. */
  predicate IsEntry(h: nat, n: nat) {
    IN_USE < h < n
  }

  function Charges(items: seq<Item>, s: seq<nat>): nat {
    if s == [] then 0 else (if s[0] < |items| then items[s[0]].charge else 0) + Charges(items, s[1..])
  }

  lemma {:induction false} ChargesDrop(items: seq<Item>, s: seq<nat>, e: nat)
    requires e in s && e < |items|
    ensures Charges(items, s) == Charges(items, Drop(s, e)) + items[e].charge
  {
    if s[0] != e {
      ChargesDrop(items, s[1..], e);
      assert Drop(s, e)[1..] == Drop(s[1..], e);
    }
  }

  lemma {:induction false} ChargesAppend(items: seq<Item>, s: seq<nat>, e: nat)
    requires e < |items|
    ensures Charges(items, s + [e]) == Charges(items, s) + items[e].charge
  {
    if s == [] {
      assert s + [e] == [e];
    } else {
      ChargesAppend(items, s[1..], e);
      assert (s + [e])[1..] == s[1..] + [e];
    }
  }

  lemma {:induction false} ChargesExtend(items: seq<Item>, item: Item, s: seq<nat>)
    requires forall i :: 0 <= i < |s| ==> s[i] < |items|
    ensures Charges(items + [item], s) == Charges(items, s)
  {
    if s != [] {
      ChargesExtend(items, item, s[1..]);
    }
  }

  /** How many of the oldest entries must go before the rest fits. */
  function Overflow(items: seq<Item>, usage: int, capacity: nat, s: seq<nat>): (k: nat)
    ensures k <= |s|
  {
    if usage <= capacity || s == [] then 0
    else 1 + Overflow(items, usage - (if s[0] < |items| then items[s[0]].charge else 0), capacity, s[1..])
  }

  /** No more go than must: with any fewer gone the rest is still too large, and with these gone it
      fits, unless none is left. */
  lemma {:induction false} OverflowIsLeast(items: seq<Item>, usage: int, capacity: nat, s: seq<nat>)
    requires forall i :: 0 <= i < |s| ==> s[i] < |items|
    ensures var k := Overflow(items, usage, capacity, s);
            && (forall j :: 0 <= j < k ==> usage - Charges(items, s[..j]) > capacity)
            && (k == |s| || usage - Charges(items, s[..k]) <= capacity)
  {
    if usage > capacity && s != [] {
      var rest := usage - items[s[0]].charge;
      OverflowIsLeast(items, rest, capacity, s[1..]);
      forall j | 0 <= j < |s|
        ensures Charges(items, s[..j + 1]) == items[s[0]].charge + Charges(items, s[1..][..j])
      {
        assert s[..j + 1][1..] == s[1..][..j];
      }
      forall j | 0 <= j < Overflow(items, usage, capacity, s)
        ensures usage - Charges(items, s[..j]) > capacity
      {
        if j > 0 {
          assert usage - Charges(items, s[..j - 1 + 1]) == rest - Charges(items, s[1..][..j - 1]);
        }
      }
      var k := Overflow(items, usage, capacity, s);
      assert Charges(items, s[..k - 1 + 1]) == items[s[0]].charge + Charges(items, s[1..][..k - 1]);
    }
  }

  /** Both lists are rings, over different entries. */
  ghost predicate Rings(n: nat, next: seq<nat>, prev: seq<nat>, lru: seq<nat>, inUse: seq<nat>) {
    && |next| == |prev| == n >= 2
    && Ring(next, prev, LRU, lru) && Ring(next, prev, IN_USE, inUse)
    && (forall h :: h in lru ==> IsEntry(h, n) && h !in inUse)
    && (forall h :: h in inUse ==> IsEntry(h, n) && h !in lru)
  }

  /** The counts of entry h agree with where it is and who holds it. */
  predicate Counted(refs: seq<nat>, inCache: seq<bool>, held: seq<nat>, lru: seq<nat>, inUse: seq<nat>, log: seq<nat>,
                    h: nat)
    requires h < |refs| == |inCache| == |held|
  {
    && refs[h] == held[h] + (if inCache[h] then 1 else 0)
    && (h in lru <==> inCache[h] && refs[h] == 1)
    && (h in inUse <==> inCache[h] && refs[h] >= 2)
    && multiset(log)[h] == (if refs[h] == 0 then 1 else 0)
  }

  ghost predicate AllCounted(n: nat, refs: seq<nat>, inCache: seq<bool>, held: seq<nat>, lru: seq<nat>, inUse: seq<nat>,
                             log: seq<nat>)
  {
    && |refs| == |inCache| == |held| == n
    && (forall h :: !IsEntry(h, n) ==> multiset(log)[h] == 0)
    && forall h :: IsEntry(h, n) ==> Counted(refs, inCache, held, lru, inUse, log, h)
  }

  class LRUCache {
    var capacity: nat
    var usage: nat
    var items: seq<Item>
    var next: seq<nat>
    var prev: seq<nat>
    var refs: seq<nat>
    var inCache: seq<bool>
    const table: HandleTable

    ghost var lru: seq<nat>        // oldest first
    ghost var inUse: seq<nat>
    ghost var held: seq<nat>       // how many handles to each entry clients have
    ghost var deletions: seq<nat>  // the entries whose deleter has run

    ghost predicate Shape()
      reads this
    {
      Rings(|items|, next, prev, lru, inUse)
    }

    ghost predicate Counts()
      reads this
    {
      AllCounted(|items|, refs, inCache, held, lru, inUse, deletions)
    }

    /** Everything agrees, except that the table may already have let go of one entry. */
    ghost predicate ValidBut(e: Link)
      reads this, table
    {
      && Shape() && Counts()
      && table.Valid(items)
      && (e.Some? ==> IsEntry(e.value, |items|) && inCache[e.value])
      && (forall h: nat :: h in table.members <==> IsEntry(h, |items|) && inCache[h] && e != Some(h))
      && usage == Charges(items, lru) + Charges(items, inUse)
      && (capacity == 0 ==> table.members == {})
    }

    ghost predicate Valid()
      reads this, table
    {
      ValidBut(None)
    }

    /** The constructor and SetCapacity: two empty rings. */
    constructor (capacity: nat)
      ensures Valid() && table.members == {} && usage == 0 && this.capacity == capacity && |items| == 2
      ensures fresh(table)
    {
      this.capacity := capacity;
      usage := 0;
      var heads := [Item([], 0, 0, []), Item([], 0, 0, [])];
      items := heads;
      next, prev := [LRU, IN_USE], [LRU, IN_USE];
      refs, inCache := [0, 0], [false, false];
      lru, inUse, held, deletions := [], [], [0, 0], [];
      table := new HandleTable(heads);
    }

    method LRURemove(e: nat)
      requires Shape() && (e in lru || e in inUse)
      modifies this`next, this`prev, this`lru, this`inUse
      ensures Shape()
      ensures lru == Drop(old(lru), e) && inUse == Drop(old(inUse), e)
    {
      DropsOne(|items|, next, prev, lru, inUse, e);
      prev := prev[next[e] := prev[e]];
      next := next[prev[e] := next[e]];
      lru, inUse := Drop(lru, e), Drop(inUse, e);
    }

    /** Makes e the newest entry of the list. */
    method LRUAppend(list: nat, e: nat)
      requires Shape() && (list == LRU || list == IN_USE)
      requires IsEntry(e, |items|) && e !in lru && e !in inUse
      modifies this`next, this`prev, this`lru, this`inUse
      ensures Shape()
      ensures lru == if list == LRU then old(lru) + [e] else old(lru)
      ensures inUse == if list == IN_USE then old(inUse) + [e] else old(inUse)
    {
      AddsOne(|items|, next, prev, lru, inUse, list, e);
      next := next[e := list];
      prev := prev[e := prev[list]];
      next := next[prev[e] := e];
      prev := prev[next[e] := e];
      if list == LRU { lru := lru + [e]; } else { inUse := inUse + [e]; }
    }

    method Ref(e: nat)
      requires Shape() && IsEntry(e, |items|) && |refs| == |inCache| == |items|
      requires refs[e] == 1 && inCache[e] ==> e in lru
      modifies this`next, this`prev, this`lru, this`inUse, this`refs
      ensures Shape() && refs == old(refs)[e := old(refs)[e] + 1]
      ensures if old(refs)[e] == 1 && inCache[e] then lru == Drop(old(lru), e) && inUse == old(inUse) + [e]
              else lru == old(lru) && inUse == old(inUse)
    {
      hide Rings, Drop, Ring;
      if refs[e] == 1 && inCache[e] {
        OutOfBoth(|items|, next, prev, lru, inUse, e);
        LRURemove(e);
        LRUAppend(IN_USE, e);
      }
      refs := refs[e := refs[e] + 1];
    }

    method Unref(e: nat)
      requires Shape() && IsEntry(e, |items|) && |refs| == |inCache| == |items| && refs[e] > 0
      requires refs[e] == 1 ==> !inCache[e]
      requires refs[e] == 2 && inCache[e] ==> e in inUse
      modifies this`next, this`prev, this`lru, this`inUse, this`refs, this`deletions
      ensures Shape() && refs == old(refs)[e := old(refs)[e] - 1]
      ensures deletions == if refs[e] == 0 then old(deletions) + [e] else old(deletions)
      ensures if refs[e] == 1 && inCache[e] then inUse == Drop(old(inUse), e) && lru == old(lru) + [e]
              else lru == old(lru) && inUse == old(inUse)
    {
      hide Rings, Drop, Ring;
      refs := refs[e := refs[e] - 1];
      if refs[e] == 0 {
        deletions := deletions + [e];
      } else if inCache[e] && refs[e] == 1 {
        OutOfBoth(|items|, next, prev, lru, inUse, e);
        LRURemove(e);
        LRUAppend(LRU, e);
      }
    }

    /** Finds the entry and gives the client a handle to it. */
    method Lookup(key: Bytes, hash: nat) returns (e: Link)
      requires Valid()
      modifies this
      ensures Valid() && table.members == old(table.members) && deletions == old(deletions)
      ensures items == old(items) && capacity == old(capacity)
      ensures Holds(items, table.members, key, hash, e)
      ensures e.None? ==> held == old(held) && lru == old(lru) && inUse == old(inUse)
      ensures e.Some? ==> e.value < |old(held)| && held == old(held)[e.value := old(held)[e.value] + 1]
      ensures e.Some? && old(held)[e.value] == 0 ==> lru == Drop(old(lru), e.value) && inUse == old(inUse) + [e.value]
      ensures e.Some? && old(held)[e.value] > 0 ==> lru == old(lru) && inUse == old(inUse)
    {
      hide AllCounted, Rings, Charges, Holds;
      e := table.Lookup(items, key, hash);
      if e.Some? { HoldsMember(items, table.members, key, hash, e); }
      if e.Some? {
        var h := e.value;
        WhereCounted(|items|, refs, inCache, held, lru, inUse, deletions, h);
        RefKeeps(|items|, items, next, prev, refs, inCache, held, lru, inUse, deletions, h);
        Ref(h);
        held := held[h := held[h] + 1];
      }
    }

    /** A client gives a handle back. */
    method Release(h: nat)
      requires Valid() && IsEntry(h, |items|) && held[h] > 0
      modifies this
      ensures Valid() && table.members == old(table.members) && items == old(items) && capacity == old(capacity)
      ensures held == old(held)[h := old(held)[h] - 1]
      ensures h in table.members && held[h] == 0 ==>
                lru == old(lru) + [h] && inUse == Drop(old(inUse), h) && deletions == old(deletions)
      ensures h in table.members && held[h] > 0 ==>
                lru == old(lru) && inUse == old(inUse) && deletions == old(deletions)
      ensures h !in table.members ==>
                && lru == old(lru) && inUse == old(inUse)
                && deletions == if held[h] == 0 then old(deletions) + [h] else old(deletions)
    {
      hide AllCounted, Rings, Charges;
      WhereCounted(|items|, refs, inCache, held, lru, inUse, deletions, h);
      UnrefKeeps(|items|, items, next, prev, refs, inCache, held, lru, inUse, deletions, h);
      Unref(h);
      held := held[h := held[h] - 1];
    }

    /** Finishes removing an entry the table has let go of. */
    method FinishErase(e: Link) returns (erased: bool)
      requires ValidBut(e)
      modifies this
      ensures Valid() && erased == e.Some?
      ensures items == old(items) && held == old(held) && capacity == old(capacity)
      ensures e.None? ==> lru == old(lru) && inUse == old(inUse) && deletions == old(deletions) && usage == old(usage)
      ensures e.Some? ==>
                && lru == Drop(old(lru), e.value) && inUse == Drop(old(inUse), e.value)
                && usage == old(usage) - items[e.value].charge
                && deletions == if held[e.value] == 0 then old(deletions) + [e.value] else old(deletions)
    {
      hide AllCounted, Rings, Charges;
      if e.Some? {
        var h := e.value;
        WhereCounted(|items|, refs, inCache, held, lru, inUse, deletions, h);
        EraseKeeps(|items|, items, next, prev, refs, inCache, held, lru, inUse, deletions, h);
        LRURemove(h);
        inCache := inCache[h := false];
        usage := usage - items[h].charge;
        Unref(h);
      }
      erased := e.Some?;
    }

    method Erase(key: Bytes, hash: nat) returns (ghost e: Link)
      requires Valid()
      modifies this, table
      ensures Valid() && items == old(items) && held == old(held) && capacity == old(capacity)
      ensures Holds(items, old(table.members), key, hash, e)
      ensures e.None? ==> table.members == old(table.members) && deletions == old(deletions)
      ensures e.Some? ==>
                && e.value in old(table.members) && table.members == old(table.members) - {e.value}
                && lru == Drop(old(lru), e.value) && inUse == Drop(old(inUse), e.value)
                && deletions == if held[e.value] == 0 then old(deletions) + [e.value] else old(deletions)
    {
      hide AllCounted, Rings, Charges, Holds;
      var removed := table.Remove(items, key, hash);
      if removed.Some? { HoldsMember(items, old(table.members), key, hash, removed); }
      var _ := FinishErase(removed);
      e := removed;
    }

    /** Evicts the entry at the front of the LRU list. */
    method RemoveOldest()
      requires Valid() && lru != []
      modifies this, table
      ensures Valid() && items == old(items) && held == old(held) && capacity == old(capacity) && inUse == old(inUse)
      ensures lru == old(lru)[1..] && deletions == old(deletions) + [old(lru)[0]]
      ensures old(lru)[0] < |items| && usage == old(usage) - items[old(lru)[0]].charge
      ensures table.members == old(table.members) - {old(lru)[0]}
    {
      hide AllCounted, Charges, Holds, Ring;
      RingFront(next, prev, LRU, lru);
      var oldest := next[LRU];
      assert oldest in lru;
      WhereCounted(|items|, refs, inCache, held, lru, inUse, deletions, oldest);
      var removed := table.Remove(items, items[oldest].key, items[oldest].hash);
      OnlyHolds(items, old(table.members), oldest, removed);
      OutOfBoth(|items|, next, prev, lru, inUse, oldest);
      var erased := FinishErase(removed);
      assert erased;
    }

    /** malloc: the entry exists, outside the cache, with one handle for the client. */
    method NewHandle(item: Item) returns (e: nat)
      requires Valid()
      modifies this, table
      ensures Valid() && capacity == old(capacity) && usage == old(usage)
      ensures e == |old(items)| && items == old(items) + [item] && held == old(held) + [1]
      ensures lru == old(lru) && inUse == old(inUse) && deletions == old(deletions)
              && table.members == old(table.members)
      ensures IsEntry(e, |items|) && |refs| == |items| == |inCache| == |held| && !inCache[e]
    {
      hide AllCounted, Rings, Charges, HandleTable.Valid;
      e := |items|;
      NewCounted(items, item, next, prev, refs, inCache, held, lru, inUse, deletions);
      table.Extend(items, item);
      items := items + [item];
      next, prev := next + [e], prev + [e];
      refs, inCache, held := refs + [1], inCache + [false], held + [1];
    }

    /** The entry becomes cached and in use; the table does not know it yet. */
    method Enlist(e: nat)
      requires Valid() && IsEntry(e, |items|) && e < |inCache| && !inCache[e] && e < |held| && held[e] == 1
               && capacity > 0
      modifies this`refs, this`inCache, this`next, this`prev, this`lru, this`inUse, this`usage
      ensures ValidBut(Some(e))
      ensures lru == old(lru) && inUse == old(inUse) + [e] && usage == old(usage) + items[e].charge
      ensures e !in lru && e !in table.members
    {
      hide AllCounted, Rings, Charges, HandleTable.Valid;
      WhereCounted(|items|, refs, inCache, held, lru, inUse, deletions, e);
      AdmitKeeps(|items|, items, refs, inCache, held, lru, inUse, deletions, e);
      refs := refs[e := refs[e] + 1];
      inCache := inCache[e := true];
      LRUAppend(IN_USE, e);
      usage := usage + items[e].charge;
    }

    /** The middle of Insert: the entry goes into the cache, in the place of one with its key. */
    method Admit(e: nat) returns (ghost r: Link)
      requires Valid() && IsEntry(e, |items|) && e < |inCache| && !inCache[e] && e < |held| && held[e] == 1
               && capacity > 0
      modifies this, table
      ensures Valid() && items == old(items) && held == old(held) && capacity == old(capacity)
      ensures Holds(items, old(table.members), items[e].key, items[e].hash, r)
      ensures e !in lru
      ensures table.members == (if r.Some? then old(table.members) - {r.value} else old(table.members)) + {e}
      ensures r.None? ==> lru == old(lru) && inUse == old(inUse) + [e] && deletions == old(deletions)
                          && usage == old(usage) + items[e].charge
      ensures r.Some? ==> r.value < |items|
                          && lru == Drop(old(lru), r.value) && inUse == Drop(old(inUse) + [e], r.value)
                          && deletions == (if held[r.value] == 0 then old(deletions) + [r.value] else old(deletions))
                          && usage == old(usage) + items[e].charge - items[r.value].charge
    {
      hide AllCounted, Rings, Charges, Holds, HandleTable.Valid;
      Enlist(e);
      var replaced := table.Insert(items, e);
      if replaced.Some? { HoldsMember(items, old(table.members), items[e].key, items[e].hash, replaced); }
      r := replaced;
      OutOfBoth(|items|, next, prev, lru, inUse, if r.Some? then r.value else 0);
      ghost var before := lru;
      var _ := FinishErase(replaced);
      if r.Some? { DropSmaller(before, r.value, e); }
    }

    method Insert(key: Bytes, hash: nat, value: Bytes, charge: nat) returns (e: nat, ghost r: Link)
      requires Valid()
      modifies this, table
      ensures Valid() && capacity == old(capacity)
      ensures e == |old(items)| && items == old(items) + [Item(key, hash, charge, value)] && held == old(held) + [1]
      ensures usage <= capacity || lru == []
      ensures capacity == 0 ==> table.members == old(table.members) && deletions == old(deletions)
      ensures capacity > 0 ==> Holds(items, old(table.members), key, hash, r) && e in table.members
      ensures capacity > 0 ==>
                var base := if r.Some? then Drop(old(lru), r.value) else old(lru);
                var k := Overflow(items, old(usage) + charge - (if r.Some? then ChargeOf(items, r.value) else 0),
                                  capacity, base);
                && lru == base[k..]
                && inUse == (if r.Some? then Drop(old(inUse) + [e], r.value) else old(inUse) + [e])
                && deletions == old(deletions) + (if r.Some? && r.value < |held| && held[r.value] == 0 then [r.value]
                                                  else []) + base[..k]
    {
      hide AllCounted, Rings, Charges, Holds, Overflow, Drop, HandleTable.Valid;
      e := NewHandle(Item(key, hash, charge, value));
      r := None;
      if capacity > 0 {
        r := Admit(e);
      } else {
        NothingCached(|items|, next, prev, refs, inCache, held, lru, inUse, deletions);
      }
      Evict();
    }

    /** The loop of Insert: the oldest entries go until the rest fits. */
    method Evict()
      requires Valid()
      modifies this, table
      ensures Valid() && items == old(items) && held == old(held) && capacity == old(capacity) && inUse == old(inUse)
      ensures usage <= capacity || lru == []
      ensures var k := Overflow(items, old(usage), capacity, old(lru));
              && lru == old(lru)[k..] && deletions == old(deletions) + old(lru)[..k]
              && forall h: nat :: h in table.members <==> h in old(table.members) && h !in old(lru)[..k]
    {
      hide AllCounted, Charges, Ring, HandleTable.Valid, Overflow;
      ghost var all, k := lru, 0;
      RingFront(next, prev, LRU, lru);
      while usage > capacity && next[LRU] != LRU
        invariant Valid() && items == old(items) && held == old(held) && capacity == old(capacity)
                  && inUse == old(inUse)
        invariant k <= |all| && lru == all[k..] && deletions == old(deletions) + all[..k]
        invariant LRU < |next| && (next[LRU] != LRU <==> lru != [])
        invariant k + Overflow(items, usage, capacity, lru) == Overflow(items, old(usage), capacity, all)
        invariant forall h: nat :: h in table.members <==> h in old(table.members) && h !in all[..k]
        decreases |all| - k
      {
        assert lru[0] in lru;
        OverflowStep(items, usage, capacity, lru);
        PrefixGrows(all, k);
        RemoveOldest();
        k := k + 1;
        RingFront(next, prev, LRU, lru);
      }
      OverflowDone(items, usage, capacity, lru);
    }

    method Prune()
      requires Valid()
      modifies this, table
      ensures Valid() && items == old(items) && held == old(held) && capacity == old(capacity) && inUse == old(inUse)
      ensures lru == [] && deletions == old(deletions) + old(lru)
    {
      hide AllCounted, Charges, Ring, HandleTable.Valid, Overflow;
      ghost var all, k := lru, 0;
      RingFront(next, prev, LRU, lru);
      while next[LRU] != LRU
        invariant Valid() && items == old(items) && held == old(held) && capacity == old(capacity)
                  && inUse == old(inUse)
        invariant k <= |all| && lru == all[k..] && deletions == old(deletions) + all[..k]
        invariant LRU < |next| && (next[LRU] != LRU <==> lru != [])
        decreases |all| - k
      {
        RemoveOldest();
        k := k + 1;
        RingFront(next, prev, LRU, lru);
      }
    }

    /** The destructor.  Once every client has given back its handles, each deleter has run
        exactly once when it ends. */
    method Destroy()
      requires Valid() && forall h: nat :: IsEntry(h, |items|) ==> h < |held| && held[h] == 0
      modifies this
      ensures items == old(items)
      ensures forall h: nat :: multiset(deletions)[h] == if IsEntry(h, |items|) then 1 else 0
    {
      hide Rings, Ring, AllCounted, Leaving;
      ghost var k: nat := 0;
      Quiet(|items|, next, prev, refs, inCache, held, lru, inUse, deletions);
      RingFront(next, prev, LRU, lru);
      var e := next[LRU];
      while e != LRU
        invariant Shape() && items == old(items)
        invariant k <= |lru| && e == Spot(LRU, lru, k)
        invariant Leaving(|items|, refs, inCache, lru, k, deletions)
        decreases |lru| - k
      {
        NextToLeave(|items|, next, prev, lru, inUse, k);
        LeavingStep(|items|, refs, inCache, lru, k, deletions);
        var following := next[e];
        inCache := inCache[e := false];
        Unref(e);
        e := following;
        k := k + 1;
      }
      NextToLeave(|items|, next, prev, lru, inUse, k);
      AllLeft(|items|, refs, inCache, lru, deletions);
    }
  }

  /** The first k of the LRU list are deleted, and everything that is not in it. */
  ghost predicate Leaving(n: nat, refs: seq<nat>, inCache: seq<bool>, lru: seq<nat>, k: nat, log: seq<nat>) {
    && |refs| == |inCache| == n && k <= |lru| && Distinct(lru)
    && (forall h: nat :: multiset(log)[h] == if IsEntry(h, n) && h !in lru[k..] then 1 else 0)
    && (forall i :: k <= i < |lru| ==> lru[i] < n && refs[lru[i]] == 1)
  }

  /** With no handle out, every entry is in the LRU list or deleted already. */
  lemma Quiet(n: nat, next: seq<nat>, prev: seq<nat>, refs: seq<nat>, inCache: seq<bool>, held: seq<nat>,
              lru: seq<nat>, inUse: seq<nat>, log: seq<nat>)
    requires AllCounted(n, refs, inCache, held, lru, inUse, log) && Rings(n, next, prev, lru, inUse)
    requires forall h: nat :: IsEntry(h, n) ==> h < |held| && held[h] == 0
    ensures Ring(next, prev, LRU, lru) && Leaving(n, refs, inCache, lru, 0, log)
  {
    hide Ring;
    assert lru[0..] == lru;
    RingDistinct(next, prev, LRU, lru);
    forall h: nat | IsEntry(h, n)
      ensures multiset(log)[h] == (if h in lru then 0 else 1)
    {
      assert Counted(refs, inCache, held, lru, inUse, log, h);
    }
    forall i | 0 <= i < |lru|
      ensures lru[i] < n && refs[lru[i]] == 1
    {
      assert lru[i] in lru;
      assert Counted(refs, inCache, held, lru, inUse, log, lru[i]);
    }
  }

  lemma LeavingStep(n: nat, refs: seq<nat>, inCache: seq<bool>, lru: seq<nat>, k: nat, log: seq<nat>)
    requires Leaving(n, refs, inCache, lru, k, log) && k < |lru| && IsEntry(lru[k], n)
    ensures |refs| == |inCache| == n && refs[lru[k]] == 1
    ensures Leaving(n, refs[lru[k] := 0], inCache[lru[k] := false], lru, k + 1, log + [lru[k]])
  {
    SuffixShrinks(lru, k);
  }

  lemma AllLeft(n: nat, refs: seq<nat>, inCache: seq<bool>, lru: seq<nat>, log: seq<nat>)
    requires Leaving(n, refs, inCache, lru, |lru|, log)
    ensures forall h: nat :: multiset(log)[h] == if IsEntry(h, n) then 1 else 0
  {
  }

  lemma NextToLeave(n: nat, next: seq<nat>, prev: seq<nat>, lru: seq<nat>, inUse: seq<nat>, k: nat)
    requires Rings(n, next, prev, lru, inUse) && k <= |lru|
    ensures k < |lru| <==> Spot(LRU, lru, k) != LRU
    ensures k < |lru| ==> IsEntry(lru[k], n) && |next| == n && next[lru[k]] == Spot(LRU, lru, k + 1)
  {
    if k < |lru| {
      assert lru[k] in lru;
      NextInRing(next, prev, LRU, lru, k);
    }
  }

  lemma NextInRing(next: seq<nat>, prev: seq<nat>, head: nat, s: seq<nat>, k: nat)
    requires Ring(next, prev, head, s) && k <= |s| && Spot(head, s, k) != head
    ensures k < |s| && s[k] < |next| && next[s[k]] == Spot(head, s, k + 1) && Distinct(s)
  {
    assert LinkedAt(next, prev, head, s, k);
  }

  lemma SuffixShrinks(s: seq<nat>, k: nat)
    requires k < |s| && Distinct(s)
    ensures forall h :: h in s[k..] <==> h == s[k] || h in s[k + 1..]
    ensures s[k] !in s[k + 1..]
  {
  }

  function ChargeOf(items: seq<Item>, h: nat): nat {
    if h < |items| then items[h].charge else 0
  }

  /** A new entry that only its client refers to. */
  lemma NewCounted(items: seq<Item>, item: Item, next: seq<nat>, prev: seq<nat>, refs: seq<nat>, inCache: seq<bool>,
                   held: seq<nat>,
                   lru: seq<nat>, inUse: seq<nat>, log: seq<nat>)
    requires AllCounted(|items|, refs, inCache, held, lru, inUse, log) && Rings(|items|, next, prev, lru, inUse)
    ensures |refs| == |inCache| == |held| == |items| && IsEntry(|items|, |items| + 1)
    ensures AllCounted(|items| + 1, refs + [1], inCache + [false], held + [1], lru, inUse, log)
    ensures Rings(|items| + 1, next + [|items|], prev + [|items|], lru, inUse)
    ensures Charges(items + [item], lru) == Charges(items, lru)
            && Charges(items + [item], inUse) == Charges(items, inUse)
  {
    hide Ring;
    var n := |items|;
    InRing(next, prev, LRU, lru);
    InRing(next, prev, IN_USE, inUse);
    RingKeeps(next, prev, next + [n], prev + [n], LRU, lru);
    RingKeeps(next, prev, next + [n], prev + [n], IN_USE, inUse);
    ChargesExtend(items, item, lru);
    ChargesExtend(items, item, inUse);
    assert n !in lru && n !in inUse;
    forall h: nat | IsEntry(h, n + 1)
      ensures Counted(refs + [1], inCache + [false], held + [1], lru, inUse, log, h)
    {
      assert h < n ==> Counted(refs, inCache, held, lru, inUse, log, h);
    }
  }

  lemma AdmitKeeps(n: nat, items: seq<Item>, refs: seq<nat>, inCache: seq<bool>, held: seq<nat>,
                   lru: seq<nat>, inUse: seq<nat>, log: seq<nat>, e: nat)
    requires AllCounted(n, refs, inCache, held, lru, inUse, log)
    requires IsEntry(e, n) && n == |items| == |refs| == |inCache| == |held| && !inCache[e] && held[e] == 1
    ensures e !in lru && e !in inUse
    ensures AllCounted(n, refs[e := refs[e] + 1], inCache[e := true], held, lru, inUse + [e], log)
    ensures Charges(items, inUse + [e]) == Charges(items, inUse) + items[e].charge
  {
    hide Charges;
    assert Counted(refs, inCache, held, lru, inUse, log, e);
    ChargesAppend(items, inUse, e);
    forall h | IsEntry(h, n)
      ensures Counted(refs[e := refs[e] + 1], inCache[e := true], held, lru, inUse + [e], log, h)
    {
      assert Counted(refs, inCache, held, lru, inUse, log, h);
    }
  }

  lemma NothingCached(n: nat, next: seq<nat>, prev: seq<nat>, refs: seq<nat>, inCache: seq<bool>, held: seq<nat>,
                      lru: seq<nat>, inUse: seq<nat>, log: seq<nat>)
    requires AllCounted(n, refs, inCache, held, lru, inUse, log) && Rings(n, next, prev, lru, inUse)
    requires forall h: nat :: IsEntry(h, n) ==> h < |inCache| && !inCache[h]
    ensures lru == []
  {
    forall h
      ensures h !in lru
    {
      if h in lru { WhereCounted(n, refs, inCache, held, lru, inUse, log, h); }
    }
    HeadIn(lru);
  }

  lemma HeadIn(s: seq<nat>)
    ensures s == [] || s[0] in s
  {
  }

  lemma DropSmaller(s: seq<nat>, e: nat, h: nat)
    requires h !in s
    ensures h !in Drop(s, e)
  {
    if s != [] && s[0] != e { DropSmaller(s[1..], e, h); }
  }

  lemma PrefixGrows(all: seq<nat>, k: nat)
    requires k < |all|
    ensures all[..k + 1] == all[..k] + [all[k]]
    ensures forall h :: h in all[..k + 1] <==> h in all[..k] || h == all[k]
  {
    assert all[..k + 1] == all[..k] + [all[k]];
  }

  lemma OverflowStep(items: seq<Item>, usage: int, capacity: nat, s: seq<nat>)
    requires usage > capacity && s != [] && s[0] < |items|
    ensures Overflow(items, usage, capacity, s) == 1 + Overflow(items, usage - items[s[0]].charge, capacity, s[1..])
  {
  }

  lemma OverflowDone(items: seq<Item>, usage: int, capacity: nat, s: seq<nat>)
    ensures usage <= capacity || s == [] ==> Overflow(items, usage, capacity, s) == 0
  {
  }

  lemma OnlyHolds(items: seq<Item>, members: set<nat>, h: nat, e: Link)
    requires OneEach(items, members) && h in members && h < |items|
    requires Holds(items, members, items[h].key, items[h].hash, e)
    ensures e == Some(h)
  {
    assert Matches(items[h], items[h].key, items[h].hash);
  }

  /** Giving a handle back keeps every count right; the last one gone, the entry is too. */
  lemma UnrefKeeps(n: nat, items: seq<Item>, next: seq<nat>, prev: seq<nat>, refs: seq<nat>, inCache: seq<bool>,
                   held: seq<nat>,
                   lru: seq<nat>, inUse: seq<nat>, log: seq<nat>, e: nat)
    requires AllCounted(n, refs, inCache, held, lru, inUse, log) && Rings(n, next, prev, lru, inUse)
    requires IsEntry(e, n) && n == |items| == |refs| == |inCache| == |held| && held[e] > 0 && refs[e] > 0
    ensures var refs', held' := refs[e := refs[e] - 1], held[e := held[e] - 1];
            if refs[e] == 1 then
              AllCounted(n, refs', inCache, held', lru, inUse, log + [e])
            else if refs[e] == 2 && inCache[e] then
              && AllCounted(n, refs', inCache, held', lru + [e], Drop(inUse, e), log)
              && Charges(items, lru + [e]) + Charges(items, Drop(inUse, e))
                 == Charges(items, lru) + Charges(items, inUse)
            else
              AllCounted(n, refs', inCache, held', lru, inUse, log)
  {
    hide Rings, Drop, Charges;
    assert Counted(refs, inCache, held, lru, inUse, log, e);
    var refs', held' := refs[e := refs[e] - 1], held[e := held[e] - 1];
    var moved := refs[e] == 2 && inCache[e];
    var lru', inUse' := if moved then lru + [e] else lru, if moved then Drop(inUse, e) else inUse;
    var log' := if refs[e] == 1 then log + [e] else log;
    if moved {
      ChargesDrop(items, inUse, e);
      ChargesAppend(items, lru, e);
    }
    forall h | IsEntry(h, n)
      ensures Counted(refs', inCache, held', lru', inUse', log', h)
    {
      assert Counted(refs, inCache, held, lru, inUse, log, h);
      ListMembers(n, next, prev, lru, inUse, e, h);
    }
  }

  /** Taking a cached entry out of the cache gives up the cache's own reference. */
  lemma EraseKeeps(n: nat, items: seq<Item>, next: seq<nat>, prev: seq<nat>, refs: seq<nat>, inCache: seq<bool>,
                   held: seq<nat>,
                   lru: seq<nat>, inUse: seq<nat>, log: seq<nat>, e: nat)
    requires AllCounted(n, refs, inCache, held, lru, inUse, log) && Rings(n, next, prev, lru, inUse)
    requires IsEntry(e, n) && n == |items| == |refs| == |inCache| == |held| && inCache[e] && refs[e] > 0
    ensures e in lru || e in inUse
    ensures AllCounted(n, refs[e := refs[e] - 1], inCache[e := false], held, Drop(lru, e), Drop(inUse, e),
                       if held[e] == 0 then log + [e] else log)
    ensures Charges(items, Drop(lru, e)) + Charges(items, Drop(inUse, e)) + items[e].charge
            == Charges(items, lru) + Charges(items, inUse)
  {
    hide Rings, Drop, Charges;
    assert Counted(refs, inCache, held, lru, inUse, log, e);
    var refs', inCache' := refs[e := refs[e] - 1], inCache[e := false];
    var log' := if held[e] == 0 then log + [e] else log;
    OutOfBoth(n, next, prev, lru, inUse, e);
    if e in lru { ChargesDrop(items, lru, e); } else { ChargesDrop(items, inUse, e); }
    forall h | IsEntry(h, n)
      ensures Counted(refs', inCache', held, Drop(lru, e), Drop(inUse, e), log', h)
    {
      assert Counted(refs, inCache, held, lru, inUse, log, h);
      ListMembers(n, next, prev, lru, inUse, e, h);
    }
  }

  lemma HoldsMember(items: seq<Item>, members: set<nat>, key: Bytes, hash: nat, e: Link)
    requires Holds(items, members, key, hash, e) && e.Some?
    ensures e.value in members
  {
  }

  lemma WhereCounted(n: nat, refs: seq<nat>, inCache: seq<bool>, held: seq<nat>, lru: seq<nat>, inUse: seq<nat>,
                     log: seq<nat>, h: nat)
    requires AllCounted(n, refs, inCache, held, lru, inUse, log) && IsEntry(h, n)
    ensures |refs| == |inCache| == |held| == n
    ensures Counted(refs, inCache, held, lru, inUse, log, h)
  {
  }

  /** Taking one more handle to a cached entry keeps every count right. */
  lemma RefKeeps(n: nat, items: seq<Item>, next: seq<nat>, prev: seq<nat>, refs: seq<nat>, inCache: seq<bool>,
                 held: seq<nat>,
                 lru: seq<nat>, inUse: seq<nat>, log: seq<nat>, e: nat)
    requires AllCounted(n, refs, inCache, held, lru, inUse, log) && Rings(n, next, prev, lru, inUse)
    requires IsEntry(e, n) && n == |items| == |refs| == |inCache| == |held| && inCache[e]
    ensures var refs', held' := refs[e := refs[e] + 1], held[e := held[e] + 1];
            if refs[e] == 1 then
              && AllCounted(n, refs', inCache, held', Drop(lru, e), inUse + [e], log)
              && Charges(items, Drop(lru, e)) + Charges(items, inUse + [e])
                 == Charges(items, lru) + Charges(items, inUse)
            else
              AllCounted(n, refs', inCache, held', lru, inUse, log)
  {
    hide Rings, Drop, Charges;
    assert Counted(refs, inCache, held, lru, inUse, log, e);
    var refs', held' := refs[e := refs[e] + 1], held[e := held[e] + 1];
    var lru', inUse' := if refs[e] == 1 then Drop(lru, e) else lru, if refs[e] == 1 then inUse + [e] else inUse;
    if refs[e] == 1 {
      ChargesDrop(items, lru, e);
      ChargesAppend(items, inUse, e);
    }
    forall h | IsEntry(h, n)
      ensures Counted(refs', inCache, held', lru', inUse', log, h)
    {
      assert Counted(refs, inCache, held, lru, inUse, log, h);
      ListMembers(n, next, prev, lru, inUse, e, h);
    }
  }

  lemma ListMembers(n: nat, next: seq<nat>, prev: seq<nat>, lru: seq<nat>, inUse: seq<nat>, e: nat, h: nat)
    requires Rings(n, next, prev, lru, inUse)
    ensures h in Drop(lru, e) <==> h in lru && h != e
    ensures h in Drop(inUse, e) <==> h in inUse && h != e
    ensures h in lru + [e] <==> h in lru || h == e
    ensures h in inUse + [e] <==> h in inUse || h == e
  {
    RingDistinct(next, prev, LRU, lru);
    RingDistinct(next, prev, IN_USE, inUse);
    DropMembers(lru, e, h);
    DropMembers(inUse, e, h);
  }

  lemma AddsOne(n: nat, next: seq<nat>, prev: seq<nat>, lru: seq<nat>, inUse: seq<nat>, list: nat, e: nat)
    requires Rings(n, next, prev, lru, inUse) && (list == LRU || list == IN_USE)
    requires IsEntry(e, n) && e !in lru && e !in inUse
    ensures prev[list] < n && prev[list] != e
    ensures Rings(n, next[e := list][prev[list] := e], prev[e := prev[list]][list := e],
                  if list == LRU then lru + [e] else lru, if list == IN_USE then inUse + [e] else inUse)
  {
    if list == LRU {
      AddsTo(next, prev, LRU, lru, IN_USE, inUse, e);
    } else {
      AddsTo(next, prev, IN_USE, inUse, LRU, lru, e);
    }
  }

  lemma AddsTo(next: seq<nat>, prev: seq<nat>, head: nat, s: seq<nat>, other: nat, t: seq<nat>, e: nat)
    requires Ring(next, prev, head, s) && Ring(next, prev, other, t) && e !in s && e !in t
    requires head != other && head !in t && other !in s && (forall h :: h in s ==> h !in t)
    requires e < |next| && e != head && e != other
    ensures prev[head] < |next| && prev[head] != e
    ensures Ring(next[e := head][prev[head] := e], prev[e := prev[head]][head := e], head, s + [e])
    ensures Ring(next[e := head][prev[head] := e], prev[e := prev[head]][head := e], other, t)
  {
    hide Ring;
    InRing(next, prev, head, s);
    InRing(next, prev, other, t);
    RingGrows(next, prev, head, s, e);
    Neighbours(next, prev, head, s, -1);
    RingKeeps(next, prev, next[e := head][prev[head] := e], prev[e := prev[head]][head := e], other, t);
  }

  /** Once dropped, an entry is in neither list. */
  lemma OutOfBoth(n: nat, next: seq<nat>, prev: seq<nat>, lru: seq<nat>, inUse: seq<nat>, e: nat)
    requires Rings(n, next, prev, lru, inUse)
    ensures e !in Drop(lru, e) && e !in Drop(inUse, e)
    ensures e !in lru ==> Drop(lru, e) == lru
    ensures e !in inUse ==> Drop(inUse, e) == inUse
    ensures e in lru ==> e !in inUse
    ensures e in inUse ==> e !in lru
  {
    RingDistinct(next, prev, LRU, lru);
    RingDistinct(next, prev, IN_USE, inUse);
    DropMembers(lru, e, e);
    DropMembers(inUse, e, e);
    if e !in lru { DropAbsent(lru, e); }
    if e !in inUse { DropAbsent(inUse, e); }
  }

  /** Taking e out of the list it is in leaves the other list alone. */
  lemma DropsOne(n: nat, next: seq<nat>, prev: seq<nat>, lru: seq<nat>, inUse: seq<nat>, e: nat)
    requires Rings(n, next, prev, lru, inUse) && (e in lru || e in inUse)
    ensures e < n && next[e] < n && prev[e] < n && prev[e] != e && next[e] != e
    ensures Rings(n, next[prev[e] := next[e]], prev[next[e] := prev[e]], Drop(lru, e), Drop(inUse, e))
  {
    hide Ring;
    if e in lru {
      DropsFrom(next, prev, LRU, lru, IN_USE, inUse, e);
    } else {
      DropsFrom(next, prev, IN_USE, inUse, LRU, lru, e);
    }
    forall h
      ensures h in Drop(lru, e) <==> h in lru && h != e
      ensures h in Drop(inUse, e) <==> h in inUse && h != e
    {
      RingDistinct(next, prev, LRU, lru);
      RingDistinct(next, prev, IN_USE, inUse);
      DropMembers(lru, e, h);
      DropMembers(inUse, e, h);
    }
  }

  lemma RingDistinct(next: seq<nat>, prev: seq<nat>, head: nat, s: seq<nat>)
    requires Ring(next, prev, head, s)
    ensures Distinct(s)
  {
  }

  /** What stands next to an entry is the head or in the same list. */
  lemma Neighbours(next: seq<nat>, prev: seq<nat>, head: nat, s: seq<nat>, i: int)
    requires Ring(next, prev, head, s) && -1 <= i <= |s|
    ensures var e := Spot(head, s, i);
            && e < |next| && (next[e] == head || next[e] in s) && (prev[e] == head || prev[e] in s)
            && next[e] < |next| && prev[e] < |next|
            && (e != head ==> next[e] != e && prev[e] != e)
  {
    if i < |s| { assert LinkedAt(next, prev, head, s, i); }
    if i >= 0 { assert LinkedAt(next, prev, head, s, i - 1); }
    assert LinkedAt(next, prev, head, s, -1) && LinkedAt(next, prev, head, s, |s| - 1);
  }

  lemma DropsFrom(next: seq<nat>, prev: seq<nat>, head: nat, s: seq<nat>, other: nat, t: seq<nat>, e: nat)
    requires Ring(next, prev, head, s) && Ring(next, prev, other, t) && e in s
    requires head != other && head !in t && other !in s && forall h :: h in s ==> h !in t
    ensures e < |next| && next[e] < |next| && prev[e] < |next| && prev[e] != e && next[e] != e
    ensures Ring(next[prev[e] := next[e]], prev[next[e] := prev[e]], head, Drop(s, e))
    ensures Ring(next[prev[e] := next[e]], prev[next[e] := prev[e]], other, Drop(t, e))
  {
    hide Ring, Drop;
    var k :| 0 <= k < |s| && s[k] == e;
    InRing(next, prev, head, s);
    InRing(next, prev, other, t);
    DropAt(s, k);
    DropAbsent(t, e);
    RingDrops(next, prev, head, s, k);
    Neighbours(next, prev, head, s, k);
    RingKeeps(next, prev, next[prev[e] := next[e]], prev[next[e] := prev[e]], other, t);
  }

  lemma InRing(next: seq<nat>, prev: seq<nat>, head: nat, s: seq<nat>)
    requires Ring(next, prev, head, s)
    ensures |next| == |prev| && head < |next| && Distinct(s) && head !in s
    ensures forall i :: 0 <= i < |s| ==> s[i] < |next|
  {
  }
}
