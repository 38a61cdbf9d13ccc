/** DBIter (db/db_iter.cc): the user's view of the entries at one snapshot, as a cursor
    that moves both ways and changes direction in the middle of a scan.
 */
module DBIters {
  import opened Comparator
  import opened Dbformat
  import opened Cursors
  import opened Options

  predicate Readable(es: seq<Entry>, s: SequenceNumber, i: int) {
    0 <= i < |es| && es[i].key.seqno <= s
  }

  /** Entry i is what a reader at snapshot s sees for its user key. */
  predicate Shown(es: seq<Entry>, s: SequenceNumber, i: int) {
    && Readable(es, s, i)
    && es[i].key.kind == TypeValue
    && forall j :: 0 <= j < i && es[j].key.user == es[i].key.user ==> !Readable(es, s, j)
  }

  /** The shown positions among the first n, in order. */
  function ShownUpTo(es: seq<Entry>, s: SequenceNumber, n: nat): (v: seq<nat>)
    requires n <= |es|
    ensures forall k :: 0 <= k < |v| ==> v[k] < n && Shown(es, s, v[k])
    ensures forall k, m :: 0 <= k < m < |v| ==> v[k] < v[m]
  {
    if n == 0 then []
    else if Shown(es, s, n - 1) then ShownUpTo(es, s, n - 1) + [n - 1]
    else ShownUpTo(es, s, n - 1)
  }

  function View(es: seq<Entry>, s: SequenceNumber): (v: seq<nat>)
    ensures forall k :: 0 <= k < |v| ==> Shown(es, s, v[k])
    ensures forall k, m :: 0 <= k < m < |v| ==> v[k] < v[m]
  {
    ShownUpTo(es, s, |es|)
  }

  /** The view misses no shown entry. */
  lemma {:induction false} ShownInView(es: seq<Entry>, s: SequenceNumber, n: nat, i: nat) returns (k: nat)
    requires i < n <= |es| && Shown(es, s, i)
    ensures k < |ShownUpTo(es, s, n)| && ShownUpTo(es, s, n)[k] == i
  {
    if i == n - 1 {
      k := |ShownUpTo(es, s, n - 1)|;
    } else {
      k := ShownInView(es, s, n - 1, i);
    }
  }

  /** k is the first view position at entry i or later. */
  predicate Rises(v: seq<nat>, i: int, k: nat) {
    && k <= |v|
    && (forall m :: 0 <= m < k ==> v[m] < i)
    && (k < |v| ==> v[k] >= i)
  }

  /** The scan stops at p: the first shown entry at `from` or later. */
  lemma Landing(es: seq<Entry>, s: SequenceNumber, from: int, p: nat) returns (k: nat)
    requires p <= |es|
    requires p < |es| ==> Shown(es, s, p) && from <= p
    requires forall j :: from <= j < p ==> !Shown(es, s, j)
    ensures k < |View(es, s)| <==> p < |es|
    ensures k < |View(es, s)| ==> View(es, s)[k] == p
    ensures from >= 0 ==> Rises(View(es, s), from, k)
  {
    var v := View(es, s);
    if p < |es| {
      k := ShownInView(es, s, |es|, p);
    } else {
      k := |v|;
    }
  }

  /** The last shown entry before n is the one the backward scan kept. */
  lemma LandingBack(es: seq<Entry>, s: SequenceNumber, n: nat, upto: nat, found: bool, k: int)
    requires Rises(View(es, s), n, upto)
    requires found ==> Shown(es, s, k) && k < n
    requires forall j :: 0 <= j < n && Shown(es, s, j) ==> found && j <= k
    ensures found <==> upto > 0
    ensures found ==> View(es, s)[upto - 1] == k
  {
    var v := View(es, s);
    if found {
      var m := ShownInView(es, s, |es|, k);
      assert m < upto;
    }
    assert upto > 0 ==> Shown(es, s, v[0]);
  }

  /** The cursor position one step back; stepping back from the front leaves it invalid. */
  function StepBack(n: nat, at: nat): nat {
    if at == 0 then n else at - 1
  }

  datatype Direction = Forward | Reverse

  class DBIter {
    const iter: Cursor
    const sequence: SequenceNumber
    var savedKey: Bytes
    var savedValue: Bytes
    var direction: Direction
    var valid: bool

    ghost var at: nat  // the position in the view; the length of the view when not valid

    ghost function Shows(): seq<nat> {
      View(iter.entries, sequence)
    }

    ghost predicate Valid()
      reads this, iter
    {
      var es := iter.entries;
      && Sorted(es)
      && at <= |Shows()|
      && (valid <==> at < |Shows()|)
      && (valid ==>
            if direction == Forward then iter.pos == Shows()[at]
            else
              && savedKey == es[Shows()[at]].key.user
              && savedValue == es[Shows()[at]].value
              && JustBefore(es, sequence, iter.pos, Shows()[at]))
    }

    /** p is at an entry for a smaller user key than that of entry i, or not valid, and
        no readable entry for a smaller user key comes after p. */
    static ghost predicate JustBefore(es: seq<Entry>, s: SequenceNumber, p: nat, i: nat)
      requires i < |es|
    {
      && p <= |es|
      && (p < |es| ==> Less(es[p].key.user, es[i].key.user))
      && forall j :: (if p < |es| then p else -1) < j < |es| && Readable(es, s, j) ==>
           !Less(es[j].key.user, es[i].key.user)
    }

    constructor (iter: Cursor, sequence: SequenceNumber)
      requires Sorted(iter.entries)
      ensures this.iter == iter && this.sequence == sequence
      ensures Valid() && !valid
    {
      this.iter := iter;
      this.sequence := sequence;
      savedKey, savedValue := [], [];
      direction := Forward;
      valid := false;
      at := |View(iter.entries, sequence)|;
    }

    function Key(): (k: Bytes)
      requires Valid() && valid
      reads this, iter
      ensures k == iter.entries[Shows()[at]].key.user
    {
      if direction == Forward then iter.Current().key.user else savedKey
    }

    function Value(): (v: Bytes)
      requires Valid() && valid
      reads this, iter
      ensures v == iter.entries[Shows()[at]].value
    {
      if direction == Forward then iter.Current().value else savedValue
    }

    /** What is known when the forward scan is at p and looks for the first shown entry at
        `from` or later: the skipped key separates the shown entries before `from` from the
        others, and only skipped user keys have a readable entry already behind p. */
    static ghost predicate Scanning(es: seq<Entry>, s: SequenceNumber, from: int, p: nat, skipping: bool, skip: Bytes)
      requires p < |es|
    {
      && (forall i :: from <= i < p ==> !Shown(es, s, i))
      && (p < from ==> Shown(es, s, from - 1) && forall j :: p <= j < from - 1 ==> !Readable(es, s, j))
      && (forall j :: p <= j < |es| && Shown(es, s, j) ==>
            (j < from <==> skipping && LessEq(es[j].key.user, skip)))
      && (forall j :: 0 <= j < p && es[j].key.user == es[p].key.user && Readable(es, s, j) ==>
            skipping && LessEq(es[j].key.user, skip))
    }

    static lemma ScanStep(es: seq<Entry>, s: SequenceNumber, from: int, p: nat, skipping: bool, skip: Bytes)
      requires p + 1 < |es| && Sorted(es)
      requires Scanning(es, s, from, p, skipping, skip)
      requires !(Shown(es, s, p) && from <= p)
      ensures if Readable(es, s, p) && es[p].key.kind == TypeDeletion
              then Scanning(es, s, from, p + 1, true, es[p].key.user)
              else Scanning(es, s, from, p + 1, skipping, skip)
    {
      var rank, unrank := OrderByRank();
      assert Before(es[p].key, es[p + 1].key);
    }

    method FindNextUserEntry(skip0: bool, ghost from: nat)
      requires Sorted(iter.entries) && iter.Valid()
      requires direction == Forward
      requires Scanning(iter.entries, sequence, from, iter.pos, skip0, savedKey)
      modifies this, iter
      ensures Valid()
      ensures Rises(Shows(), from, at)
    {
      hide Less;
      var skipping := skip0;
      ghost var es := iter.entries;
      while true
        invariant iter.Valid() && direction == Forward
        invariant Scanning(es, sequence, from, iter.pos, skipping, savedKey)
        decreases |es| - iter.pos
      {
        var ikey := iter.Current().key;
        ghost var p, skipping0, saved0 := iter.pos, skipping, savedKey;
        if ikey.seqno <= sequence {
          match ikey.kind
          case TypeDeletion =>
            savedKey := ikey.user;
            skipping := true;
          case TypeValue =>
            if !(skipping && LessEq(ikey.user, savedKey)) {
              valid := true;
              savedKey := [];
              at := Landing(es, sequence, from, iter.pos);
              return;
            }
        }
        iter.Next();
        if !iter.Valid() {
          break;
        }
        ScanStep(es, sequence, from, p, skipping0, saved0);
      }
      savedKey := [];
      valid := false;
      at := Landing(es, sequence, from, |es|);
    }

    /** What is known when the backward scan has read the entries from c on and before n:
        k is the newest readable entry of the user key it last met, if that is a value. */
    static ghost predicate BackScanning(es: seq<Entry>, s: SequenceNumber, c: nat, n: nat, kind: ValueType, k: int,
                                        savedKey: Bytes, savedValue: Bytes)
      requires c <= n <= |es|
    {
      && (forall j :: c <= j < n && Shown(es, s, j) ==> kind == TypeValue && j == k)
      && (kind == TypeValue ==>
            && c <= k < n
            && Readable(es, s, k) && es[k].key.kind == TypeValue
            && savedKey == es[k].key.user && savedValue == es[k].value
            && forall j :: c <= j < k ==> !Readable(es, s, j))
    }

    static lemma BackScanStep(es: seq<Entry>, s: SequenceNumber, c: nat, n: nat, kind: ValueType, k: int,
                              savedKey: Bytes, savedValue: Bytes)
      requires 0 < c <= n <= |es| && Sorted(es)
      requires BackScanning(es, s, c, n, kind, k, savedKey, savedValue)
      ensures !Readable(es, s, c - 1) ==> BackScanning(es, s, c - 1, n, kind, k, savedKey, savedValue)
      ensures Readable(es, s, c - 1) && !(kind == TypeValue && Less(es[c - 1].key.user, savedKey)) ==>
                BackScanning(es, s, c - 1, n, es[c - 1].key.kind, c - 1, es[c - 1].key.user, es[c - 1].value)
    {
      var rank, unrank := OrderByRank();
      if kind == TypeValue {
        assert unrank(rank(savedKey)) == savedKey && unrank(rank(es[c - 1].key.user)) == es[c - 1].key.user;
        assert Before(es[c - 1].key, es[k].key);
      }
    }

    /** The backward scan ends with c entries unread, because a readable entry for a
        smaller user key follows a value or because nothing is left. */
    static lemma BackScanEnd(es: seq<Entry>, s: SequenceNumber, c: nat, n: nat, kind: ValueType, k: int,
                             savedKey: Bytes, savedValue: Bytes, upto: nat)
      requires c <= n <= |es| && Sorted(es)
      requires BackScanning(es, s, c, n, kind, k, savedKey, savedValue)
      requires c > 0 ==> kind == TypeValue && Less(es[c - 1].key.user, savedKey)
      requires Rises(View(es, s), n, upto)
      ensures kind == TypeValue <==> upto > 0
      ensures kind == TypeValue ==>
                k == View(es, s)[upto - 1] && JustBefore(es, s, if c == 0 then |es| else c - 1, k)
    {
      if kind == TypeValue {
        forall j | 0 <= j < c
          ensures Less(es[j].key.user, savedKey)
        {
          SortedUsers(es, j, c - 1);
          LessTransitive(es[j].key.user, es[c - 1].key.user, savedKey);
        }
        LessIsStrict(savedKey, savedKey);
        forall j | k < j < |es|
          ensures !Less(es[j].key.user, savedKey)
        {
          SortedUsers(es, k, j);
        }
      }
      LandingBack(es, s, n, upto, kind == TypeValue, k);
    }

    method FindPrevUserEntry(ghost upto: nat)
      requires Sorted(iter.entries)
      requires direction == Reverse
      requires upto <= |Shows()|
      requires iter.pos <= |iter.entries|
      requires Rises(Shows(), if iter.Valid() then iter.pos + 1 else 0, upto)
      modifies this, iter
      ensures Valid()
      ensures at == StepBack(|Shows()|, upto)
    {
      hide Less, Sorted, Rises, JustBefore;
      var valueType := TypeDeletion;
      ghost var es := iter.entries;
      ghost var n := if iter.Valid() then iter.pos + 1 else 0;
      ghost var k := 0;
      if iter.Valid() {
        while true
          invariant iter.Valid() && direction == Reverse
          invariant iter.pos + 1 <= n
          invariant BackScanning(es, sequence, iter.pos + 1, n, valueType, k, savedKey, savedValue)
          decreases iter.pos
        {
          var ikey := iter.Current().key;
          BackScanStep(es, sequence, iter.pos + 1, n, valueType, k, savedKey, savedValue);
          if ikey.seqno <= sequence {
            if valueType != TypeDeletion && Less(ikey.user, savedKey) {
              break;
            }
            valueType := ikey.kind;
            k := iter.pos;
            if valueType == TypeDeletion {
              savedKey := [];
              savedValue := [];
            } else {
              savedKey := ikey.user;
              savedValue := iter.Current().value;
            }
          }
          iter.Prev();
          if !iter.Valid() {
            break;
          }
        }
      }
      assert iter.pos <= |es|;
      BackScanEnd(es, sequence, if iter.Valid() then iter.pos + 1 else 0, n, valueType, k, savedKey, savedValue, upto);
      if valueType == TypeDeletion {
        valid := false;
        savedKey := [];
        savedValue := [];
        direction := Forward;
        at := |Shows()|;
      } else {
        valid := true;
        at := upto - 1;
      }
    }

    /** Stepping off the entry just shown. */
    static lemma ScanAfter(es: seq<Entry>, s: SequenceNumber, i: nat)
      requires i + 1 < |es| && Sorted(es) && Shown(es, s, i)
      ensures Scanning(es, s, i + 1, i + 1, true, es[i].key.user)
    {
      forall j | i < j < |es|
        ensures LessEq(es[j].key.user, es[i].key.user) ==> es[j].key.user == es[i].key.user
      {
        SortedUsers(es, i, j);
        LessTransitive(es[j].key.user, es[i].key.user, es[j].key.user);
      }
      forall j | 0 <= j <= i
        ensures LessEq(es[j].key.user, es[i].key.user)
      {
        SortedUsers(es, j, i);
      }
    }

    /** Turning round: stepping forward from where the backward scan stopped. */
    static lemma ScanAfterTurn(es: seq<Entry>, s: SequenceNumber, p: nat, i: nat)
      requires i < |es| && Sorted(es) && Shown(es, s, i) && JustBefore(es, s, p, i)
      ensures var q := if p < |es| then p + 1 else 0; q <= i && Scanning(es, s, i + 1, q, true, es[i].key.user)
    {
      forall j | 0 <= j <= i
        ensures LessEq(es[j].key.user, es[i].key.user)
      {
        SortedUsers(es, j, i);
      }
      forall j | i <= j < |es|
        ensures LessEq(es[i].key.user, es[j].key.user)
      {
        SortedUsers(es, i, j);
      }
      forall j | 0 <= j < |es|
        ensures LessEq(es[j].key.user, es[i].key.user) && LessEq(es[i].key.user, es[j].key.user) ==>
                  es[j].key.user == es[i].key.user
      {
        LessTransitive(es[j].key.user, es[i].key.user, es[j].key.user);
      }
    }

    /** Seeking splits the entries a reader may see by user key. */
    static lemma ScanAfterSeek(es: seq<Entry>, s: SequenceNumber, target: Bytes, p: nat)
      requires Sorted(es) && p == LowerBound(es, LookupKey(target, s))
      ensures forall j :: 0 <= j < p && Readable(es, s, j) ==> Less(es[j].key.user, target)
      ensures forall j :: p <= j < |es| ==> !Less(es[j].key.user, target)
      ensures p < |es| ==> Scanning(es, s, p, p, false, [])
    {
      forall j | p <= j < |es|
        ensures !Less(es[j].key.user, target)
      {
        SortedUsers(es, p, j);
        LessTransitive(es[p].key.user, es[j].key.user, target);
      }
    }

    static lemma RisesOnce(v: seq<nat>, i: nat, k: nat, m: nat)
      requires forall a, b :: 0 <= a < b < |v| ==> v[a] < v[b]
      requires Rises(v, i, k) && Rises(v, i, m)
      ensures k == m
    {
    }

    /** The other entries of the shown entry's user key are not in the view. */
    static lemma BackOff(es: seq<Entry>, s: SequenceNumber, at: nat, n: nat)
      requires at < |View(es, s)| && n <= View(es, s)[at]
      requires forall j :: n <= j < View(es, s)[at] && Readable(es, s, j) ==>
                 es[j].key.user == es[View(es, s)[at]].key.user
      ensures Rises(View(es, s), n, at)
    {
      var v := View(es, s);
      forall m | 0 <= m < at
        ensures v[m] < n
      {
        assert Shown(es, s, v[m]) && Shown(es, s, v[at]);
      }
    }

    static lemma SameUser(es: seq<Entry>, p: nat, i: nat)
      requires Sorted(es) && p <= i < |es|
      ensures Less(es[p].key.user, es[i].key.user) || es[p].key.user == es[i].key.user
    {
      SortedUsers(es, p, i);
      LessTransitive(es[i].key.user, es[p].key.user, es[i].key.user);
    }

    method Next()
      requires Valid() && valid
      modifies this, iter
      ensures Valid()
      ensures at == old(at) + 1
    {
      hide Less, Shown;
      ghost var es, i, at0 := iter.entries, Shows()[at], at;
      if direction == Reverse {
        ScanAfterTurn(es, sequence, iter.pos, i);
        direction := Forward;
        if !iter.Valid() {
          iter.SeekToFirst();
        } else {
          iter.Next();
        }
      } else {
        savedKey := iter.Current().key.user;
        iter.Next();
        if iter.Valid() {
          ScanAfter(es, sequence, i);
        }
      }
      if !iter.Valid() {
        valid := false;
        savedKey := [];
        at := at + 1;
        return;
      }
      FindNextUserEntry(true, i + 1);
      RisesOnce(Shows(), i + 1, at, at0 + 1);
    }

    method Prev()
      requires Valid() && valid
      modifies this, iter
      ensures Valid()
      ensures at == if old(at) == 0 then |Shows()| else old(at) - 1
    {
      hide Less, Readable;
      ghost var es, i := iter.entries, Shows()[at];
      if direction == Forward {
        savedKey := iter.Current().key.user;
        while true
          invariant iter.Valid() && iter.pos <= i && savedKey == es[i].key.user && at == old(at)
          invariant forall j :: iter.pos <= j < i ==> es[j].key.user == es[i].key.user
          decreases iter.pos
        {
          iter.Prev();
          if !iter.Valid() {
            BackOff(es, sequence, at, 0);
            RisesOnce(Shows(), 0, at, 0);
            valid := false;
            savedKey := [];
            savedValue := [];
            at := |Shows()|;
            return;
          }
          SameUser(es, iter.pos, i);
          if Less(iter.Current().key.user, savedKey) {
            break;
          }
        }
        direction := Reverse;
      } else {
        ScanAfterTurn(es, sequence, iter.pos, i);
      }
      BackOff(es, sequence, at, if iter.Valid() then iter.pos + 1 else 0);
      FindPrevUserEntry(at);
    }

    method Seek(target: Bytes)
      requires Valid()
      modifies this, iter
      ensures Valid()
      ensures forall k :: 0 <= k < at ==> Less(iter.entries[Shows()[k]].key.user, target)
      ensures at < |Shows()| ==> !Less(iter.entries[Shows()[at]].key.user, target)
    {
      direction := Forward;
      savedValue := [];
      iter.Seek(LookupKey(target, sequence));
      ScanAfterSeek(iter.entries, sequence, target, iter.pos);
      if iter.Valid() {
        FindNextUserEntry(false, iter.pos);
      } else {
        valid := false;
        at := |Shows()|;
      }
    }

    method SeekToFirst()
      requires Valid()
      modifies this, iter
      ensures Valid()
      ensures at == 0
    {
      direction := Forward;
      savedValue := [];
      iter.SeekToFirst();
      if iter.Valid() {
        FindNextUserEntry(false, 0);
        RisesOnce(Shows(), 0, at, 0);
      } else {
        valid := false;
        at := 0;
      }
    }

    method SeekToLast()
      requires Valid()
      modifies this, iter
      ensures Valid()
      ensures at == if Shows() == [] then 0 else |Shows()| - 1
    {
      direction := Reverse;
      savedValue := [];
      iter.SeekToLast();
      FindPrevUserEntry(|Shows()|);
    }
  }

  /** What a reader of `user` at snapshot s gets from these entries alone: its newest
      readable entry, if there is one. */
  function Lookup(es: seq<Entry>, user: Bytes, s: SequenceNumber): (r: Option<Entry>) {
    if es == [] then None
    else if es[0].key.user == user && es[0].key.seqno <= s then Some(es[0])
    else Lookup(es[1..], user, s)
  }

  lemma {:induction false} LookupFirst(es: seq<Entry>, user: Bytes, s: SequenceNumber)
    ensures match Lookup(es, user, s)
            case None => forall i :: Readable(es, s, i) ==> es[i].key.user != user
            case Some(e) => exists i ::
              && Readable(es, s, i) && es[i] == e && e.key.user == user
              && forall j :: 0 <= j < i && es[j].key.user == user ==> !Readable(es, s, j)
  {
    if es != [] && !(es[0].key.user == user && es[0].key.seqno <= s) {
      var t := es[1..];
      LookupFirst(t, user, s);
      if Lookup(t, user, s).Some? {
        var i :| Readable(t, s, i) && t[i] == Lookup(t, user, s).value && t[i].key.user == user
                 && forall j :: 0 <= j < i && t[j].key.user == user ==> !Readable(t, s, j);
        assert es[i + 1] == t[i];
        assert forall j :: 0 < j < i + 1 && es[j].key.user == user ==>
                 t[j - 1].key.user == user && !Readable(t, s, j - 1);
      } else {
        assert forall i :: 0 < i < |es| && Readable(es, s, i) ==> Readable(t, s, i - 1) && t[i - 1] == es[i];
      }
    } else if es != [] {
      assert Readable(es, s, 0);
    }
  }

  /** The view is the snapshot as a sorted map: its user keys increase strictly, and it
      holds exactly the keys whose newest readable entry is a value, with that value. */
  lemma ViewIsSnapshot(es: seq<Entry>, s: SequenceNumber, user: Bytes, value: Bytes)
    requires Sorted(es)
    ensures forall k, m :: 0 <= k < m < |View(es, s)| ==> Less(es[View(es, s)[k]].key.user, es[View(es, s)[m]].key.user)
    ensures (exists k ::
               && 0 <= k < |View(es, s)|
               && es[View(es, s)[k]].key.user == user && es[View(es, s)[k]].value == value)
            <==> (Lookup(es, user, s).Some? && Lookup(es, user, s).value.key.kind == TypeValue
                  && Lookup(es, user, s).value.value == value)
  {
    var v := View(es, s);
    forall k, m | 0 <= k < m < |v|
      ensures Less(es[v[k]].key.user, es[v[m]].key.user)
    {
      assert Before(es[v[k]].key, es[v[m]].key);
      assert Shown(es, s, v[k]) && Shown(es, s, v[m]);
    }
    LookupFirst(es, user, s);
    if Lookup(es, user, s).Some? {
      var e := Lookup(es, user, s).value;
      var i :| Readable(es, s, i) && es[i] == e && forall j :: 0 <= j < i && es[j].key.user == user ==>
            !Readable(es, s, j);
      if e.key.kind == TypeValue {
        var k := ShownInView(es, s, |es|, i);
      }
      forall k | 0 <= k < |v| && es[v[k]].key.user == user
        ensures v[k] == i
      {
        assert Shown(es, s, v[k]);
      }
    }
    if k :| 0 <= k < |v| && es[v[k]].key.user == user && es[v[k]].value == value {
      assert Shown(es, s, v[k]);
    }
  }

  datatype Move = First | Last | To(target: Bytes) | Ahead | Back

  /** The cursor over the sorted map that DBIter is meant to be: where each move leads. */
  ghost function Replay(es: seq<Entry>, s: SequenceNumber, moves: seq<Move>, at: nat): (r: nat)
    requires Sorted(es)
    decreases |moves|
  {
    var v := View(es, s);
    if moves == [] then at
    else
      var next := match moves[0]
        case First => 0
        case Last => StepBack(|v|, |v|)
        case To(t) => FirstAtOrPast(es, v, t)
        case Ahead => if at < |v| then at + 1 else at
        case Back => if at < |v| then StepBack(|v|, at) else at;
      Replay(es, s, moves[1..], next)
  }

  function FirstAtOrPast(es: seq<Entry>, v: seq<nat>, target: Bytes): (k: nat)
    requires forall m :: 0 <= m < |v| ==> v[m] < |es|
    ensures k <= |v|
    ensures forall m :: 0 <= m < k ==> Less(es[v[m]].key.user, target)
    ensures k < |v| ==> !Less(es[v[k]].key.user, target)
  {
    if v == [] || !Less(es[v[0]].key.user, target) then 0 else 1 + FirstAtOrPast(es, v[1..], target)
  }

  /** Any mix of moves, whatever the direction switches, ends where the plain cursor ends
      and shows the same key and value.  Next and Prev are only called on a valid iterator. */
  method Drive(it: DBIter, moves: seq<Move>)
    requires it.Valid()
    modifies it, it.iter
    ensures it.Valid()
    ensures it.at == Replay(it.iter.entries, it.sequence, moves, old(it.at))
    ensures it.valid <==> it.at < |it.Shows()|
    ensures it.valid ==> it.Key() == it.iter.entries[it.Shows()[it.at]].key.user
    ensures it.valid ==> it.Value() == it.iter.entries[it.Shows()[it.at]].value
  {
    hide Less, Shown, View, Sorted, Rises, FirstAtOrPast;
    var i := 0;
    ghost var es, s := it.iter.entries, it.sequence;
    while i < |moves|
      invariant 0 <= i <= |moves|
      invariant it.Valid()
      invariant Replay(es, s, moves[i..], it.at) == Replay(es, s, moves, old(it.at))
    {
      match moves[i] {
        case First => it.SeekToFirst();
        case Last => it.SeekToLast();
        case To(target) => it.Seek(target);
        case Ahead => if it.valid { it.Next(); }
        case Back => if it.valid { it.Prev(); }
      }
      assert moves[i..][1..] == moves[i + 1..];
      i := i + 1;
    }
  }
}
