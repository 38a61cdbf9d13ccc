/** Internal keys (db/dbformat.h, db/dbformat.cc): a user key, a sequence number and a
    type, ordered by increasing user key and then by decreasing packed tag, so that the
    newest entry for a user key comes first.
 */
module Dbformat {
  import opened Comparator

  const MAX_SEQUENCE: nat := 0x100_0000_0000_0000 - 1

  type SequenceNumber = s: nat | s <= MAX_SEQUENCE

  datatype ValueType = TypeDeletion | TypeValue

  /** kValueTypeForSeek: the larger type, hence the earlier key. */
  const TYPE_FOR_SEEK := TypeValue

  datatype InternalKey = InternalKey(user: Bytes, seqno: SequenceNumber, kind: ValueType)

  datatype Entry = Entry(key: InternalKey, value: Bytes)

  /** PackSequenceAndType */
  function Tag(k: InternalKey): nat {
    k.seqno * 256 + (if k.kind == TypeValue then 1 else 0)
  }

  /** a comes strictly before b in the internal order */
  predicate Before(a: InternalKey, b: InternalKey) {
    Less(a.user, b.user) || (a.user == b.user && Tag(a) > Tag(b))
  }

  predicate NotAfter(a: InternalKey, b: InternalKey) {
    !Before(b, a)
  }

  /** The key that comes first among all keys for `user` that a reader at `s` may see. */
  function LookupKey(user: Bytes, s: SequenceNumber): InternalKey {
    InternalKey(user, s, TYPE_FOR_SEEK)
  }

  predicate Sorted(es: seq<Entry>) {
    forall i, j :: 0 <= i < j < |es| ==> Before(es[i].key, es[j].key)
  }

  lemma InternalOrder(a: InternalKey, b: InternalKey, c: InternalKey)
    ensures Before(a, b) || a == b || Before(b, a)
    ensures !(Before(a, b) && Before(b, a))
    ensures Before(a, b) && Before(b, c) ==> Before(a, c)
    ensures NotAfter(a, b) && Before(b, c) ==> Before(a, c)
    ensures Before(a, b) && NotAfter(b, c) ==> Before(a, c)
  {
    var rank, unrank := OrderByRank();
    assert unrank(rank(a.user)) == a.user && unrank(rank(b.user)) == b.user && unrank(rank(c.user)) == c.user;
  }

  lemma OrderLaws()
    ensures forall a, b, c {:trigger Before(a, b), Before(b, c)} :: Before(a, b) && Before(b, c) ==> Before(a, c)
    ensures forall a, b {:trigger Before(a, b)} :: !(Before(a, b) && Before(b, a))
    ensures forall a, b {:trigger Before(a, b)} :: Before(a, b) || a == b || Before(b, a)
  {
    forall a, b, c
      ensures Before(a, b) && Before(b, c) ==> Before(a, c)
      ensures !(Before(a, b) && Before(b, a))
      ensures Before(a, b) || a == b || Before(b, a)
    {
      InternalOrder(a, b, c);
    }
  }

  /** User keys never decrease along a sorted run, and neither increases the tag of one. */
  lemma SortedUsers(es: seq<Entry>, i: nat, j: nat)
    requires Sorted(es) && i <= j < |es|
    ensures LessEq(es[i].key.user, es[j].key.user)
    ensures i < j && es[i].key.user == es[j].key.user ==> Tag(es[i].key) > Tag(es[j].key)
  {
    LessIsStrict(es[i].key.user, es[j].key.user);
    assert i < j ==> Before(es[i].key, es[j].key);
  }

  lemma LessTransitive(a: Bytes, b: Bytes, c: Bytes)
    ensures LessEq(a, b) && Less(b, c) ==> Less(a, c)
    ensures Less(a, b) && LessEq(b, c) ==> Less(a, c)
    ensures LessEq(a, b) && LessEq(b, c) ==> LessEq(a, c)
    ensures LessEq(a, b) && LessEq(b, a) ==> a == b
  {
    RankDecides(a, b);
    RankDecides(b, c);
    RankDecides(a, c);
    RankDecides(b, a);
    RankDecides(c, b);
    RankDecides(c, a);
  }

  /** InternalKeyComparator::Compare */
  method CompareInternal(a: InternalKey, b: InternalKey) returns (r: int)
    ensures r < 0 <==> Before(a, b)
    ensures r > 0 <==> Before(b, a)
    ensures r == 0 <==> a == b
  {
    r := Compare(a.user, b.user);
    LessIsStrict(a.user, b.user);
    if r == 0 {
      var anum, bnum := Tag(a), Tag(b);
      if anum > bnum {
        r := -1;
      } else if anum < bnum {
        r := 1;
      }
    }
  }

  /** s is `start`, with the user key cut where it first differs from the one of `limit` and the byte
      there raised by one, if that byte stays smaller and the key gets shorter. */
  ghost predicate ShortSeparator(start: InternalKey, limit: InternalKey, s: InternalKey) {
    && (forall d :: 0 <= d < |start.user| - 1 && d < |limit.user| && start.user[..d] == limit.user[..d]
                    && start.user[d] as int + 1 < limit.user[d] as int ==>
          s == InternalKey(start.user[..d] + [start.user[d] + 1], 0xff_ffff_ffff_ffff, TypeValue))
    && ((forall d :: 0 <= d < |start.user| - 1 && d < |limit.user| && start.user[..d] == limit.user[..d] ==>
           limit.user[d] as int <= start.user[d] as int + 1) ==>
          s == start)
  }

  /** With the user keys split where they first differ: p + x + a and p + y + b. */
  lemma SeparatorIsShort(start: InternalKey, limit: InternalKey, s: InternalKey, p: Bytes, x: Byte, y: Byte,
                         a: Bytes, b: Bytes)
    requires ShortSeparator(start, limit, s) && x != y
    requires start.user == p + [x] + a && limit.user == p + [y] + b
    ensures s == if a != [] && x as int + 1 < y as int then InternalKey(p + [x + 1], 0xff_ffff_ffff_ffff, TypeValue)
                 else start
  {
    var n := |p|;
    assert start.user[..n] == p == limit.user[..n] && start.user[n] == x && limit.user[n] == y;
    forall d | n < d < |start.user| && d < |limit.user|
      ensures start.user[..d] != limit.user[..d]
    {
      assert start.user[..d][n] != limit.user[..d][n];
    }
    forall d | 0 <= d < n
      ensures start.user[d] == limit.user[d]
    {
      assert start.user[..n][d] == limit.user[..n][d];
    }
  }

  /** Of two user keys one of which starts the other, the first is left as it is. */
  lemma PrefixIsKept(start: InternalKey, limit: InternalKey, s: InternalKey)
    requires ShortSeparator(start, limit, s) && (start.user <= limit.user || limit.user <= start.user)
    ensures s == start
  {
    forall d | 0 <= d < |start.user| && d < |limit.user|
      ensures start.user[d] == limit.user[d]
    {
    }
  }

  /** InternalKeyComparator::FindShortestSeparator: only a user key that became shorter
      and larger is taken over, with the earliest tag there is for it. */
  method FindShortestInternalSeparator(start: InternalKey, limit: InternalKey) returns (s: InternalKey)
    ensures NotAfter(start, s)
    ensures Before(start, limit) ==> Before(s, limit)
    ensures s == start ||
            (|s.user| < |start.user| && Less(start.user, s.user) && Less(s.user, limit.user)
             && s == LookupKey(s.user, MAX_SEQUENCE))
    ensures ShortSeparator(start, limit, s)
    ensures forall d :: 0 <= d < |start.user| - 1 && d < |limit.user| && start.user[..d] == limit.user[..d]
                        && start.user[d] as int + 1 < limit.user[d] as int ==>
              s == InternalKey(start.user[..d] + [start.user[d] + 1], 0xff_ffff_ffff_ffff, TypeValue)
  {
    var tmp := FindShortestSeparator(start.user, limit.user);
    s := start;
    LessIsStrict(start.user, tmp);
    if |tmp| < |start.user| {
      var c := Compare(start.user, tmp);
      if c < 0 {
        s := LookupKey(tmp, MAX_SEQUENCE);
      }
    }
  }

  /** InternalKeyComparator::FindShortSuccessor */
  method FindShortInternalSuccessor(key: InternalKey) returns (s: InternalKey)
    ensures NotAfter(key, s)
    ensures s == key || (|s.user| < |key.user| && Less(key.user, s.user) && s == LookupKey(s.user, MAX_SEQUENCE))
    ensures forall i :: 0 <= i < |key.user| - 1 && key.user[i] != 0xff
                        && (forall j :: 0 <= j < i ==> key.user[j] == 0xff) ==>
              s == InternalKey(key.user[..i] + [key.user[i] + 1], 0xff_ffff_ffff_ffff, TypeValue)
    ensures (forall i :: 0 <= i < |key.user| - 1 ==> key.user[i] == 0xff) ==> s == key
  {
    var tmp := FindShortSuccessor(key.user);
    s := key;
    LessIsStrict(key.user, tmp);
    if |tmp| < |key.user| {
      var c := Compare(key.user, tmp);
      if c < 0 {
        s := LookupKey(tmp, MAX_SEQUENCE);
      }
    }
  }
}
