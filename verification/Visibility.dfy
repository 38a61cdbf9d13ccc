/** What the drop rule of a compaction does to readers: exactly when no reader at a live
    snapshot can tell that entries were dropped.
 */
module Visibility {
  import opened Comparator
  import opened Dbformat
  import opened Options
  import opened Versions
  import opened DropRule

  ghost function EntrySet(m: seq<Entry>): set<Entry> {
    set e | e in m
  }

  /** No two entries of the database have the same internal key. */
  ghost predicate UniqueKeys(es: set<Entry>) {
    forall x, y :: x in es && y in es && x.key == y.key ==> x == y
  }

  lemma {:induction false} NewestExists(es: set<Entry>, user: Bytes, s: SequenceNumber) returns (r: Option<Entry>)
    requires UniqueKeys(es)
    ensures Answer(es, user, s, r)
    decreases |es|
  {
    if e :| e in es && e.key.user == user && e.key.seqno <= s {
      var rest := es - {e};
      var r' := NewestExists(rest, user, s);
      assert es == rest + {e};
      match r' {
        case None => r := Some(e);
        case Some(x) =>
          TagDecides(x, e);
          r := if Newer(x, e) then Some(x) else Some(e);
      }
    } else {
      r := None;
    }
  }

  lemma TagDecides(x: Entry, y: Entry)
    requires x.key.user == y.key.user && x.key != y.key
    ensures Newer(x, y) || Newer(y, x)
  {
  }

  /** The database after the merged entries m were replaced by what the drop rule keeps. */
  ghost function AfterDrop(es: set<Entry>, v: Version, level: nat, m: seq<Entry>,
                           snapshot: SequenceNumber): set<Entry> {
    es - EntrySet(m) + EntrySet(Kept(v, level, m, snapshot, |m|))
  }

  /** t is a deletion marker among the inputs, the newest entry of its user key at the oldest
      live snapshot, dropped as obsolete; x is the value that the marker alone covered: the
      newest older entry outside the inputs. */
  ghost predicate Uncovers(es: set<Entry>, v: Version, level: nat, m: seq<Entry>, snapshot: SequenceNumber, t: Entry,
                           x: Entry) {
    && t in m && t.key.kind == TypeDeletion && BaseLevel(v, level, t.key.user)
    && Newest(es, t.key.user, snapshot, t)
    && x in es && x !in m && x.key.user == t.key.user && Newer(t, x)
    && x.key.kind == TypeValue
    && forall y :: y in es && y !in m && y.key.user == t.key.user && Newer(t, y) ==> y == x || Newer(x, y)
  }

  /** Only entries that some live reader may not need are dropped: an entry that is newest
      at a snapshot the compaction respects is dropped only as an obsolete marker. */
  lemma DroppedNewest(es: set<Entry>, v: Version, level: nat, m: seq<Entry>, snapshot: SequenceNumber,
                      user: Bytes, s: SequenceNumber, e: Entry)
    requires Sorted(m) && EntrySet(m) <= es && UniqueKeys(es) && snapshot <= s
    requires Newest(es, user, s, e) && e in m && e !in Kept(v, level, m, snapshot, |m|)
    ensures e.key.kind == TypeDeletion && e.key.seqno <= snapshot && BaseLevel(v, level, user)
    ensures Newest(es, user, snapshot, e)
    ensures forall x :: x in Kept(v, level, m, snapshot, |m|) && x.key.user == user && x.key.seqno <= s ==> false
  {
    hide BaseLevel, Kept, Before, Less, Hidden;
    var i :| 0 <= i < |m| && m[i] == e;
    KeptEntries(v, level, m, snapshot, |m|, e);
    assert Dropped(v, level, m, snapshot, i);
    NewestNotHidden(es, m, snapshot, user, s, i);
    forall x | x in Kept(v, level, m, snapshot, |m|) && x.key.user == user && x.key.seqno <= s
      ensures false
    {
      KeptEntries(v, level, m, snapshot, |m|, x);
      var j :| 0 <= j < |m| && m[j] == x && !Dropped(v, level, m, snapshot, j);
      assert x in EntrySet(m);
      OlderIsHidden(m, snapshot, i, j);
    }
  }

  lemma NewestNotHidden(es: set<Entry>, m: seq<Entry>, snapshot: SequenceNumber, user: Bytes, s: SequenceNumber, i: nat)
    requires Sorted(m) && EntrySet(m) <= es && snapshot <= s
    requires i < |m| && Newest(es, user, s, m[i])
    ensures !Hidden(m, snapshot, i)
  {
    hide Before;
    if i > 0 {
      SortedUsers(m, i - 1, i);
      assert m[i - 1] in EntrySet(m);
    }
  }

  /** Below an entry that the snapshot sees, older entries for its user key are hidden. */
  lemma OlderIsHidden(m: seq<Entry>, snapshot: SequenceNumber, i: nat, j: nat)
    requires Sorted(m) && i < |m| && j < |m| && m[i].key.user == m[j].key.user
    requires m[i].key.seqno <= snapshot
    ensures i < j ==> Hidden(m, snapshot, j)
    ensures j < i ==> Newer(m[j], m[i])
  {
    hide Before;
    if j < i {
      SortedUsers(m, j, i);
    } else if i < j {
      BetweenSameUser(m, i, j);
      SortedUsers(m, i, j - 1);
    }
  }

  lemma BetweenSameUser(m: seq<Entry>, i: nat, j: nat)
    requires Sorted(m) && i < j < |m| && m[i].key.user == m[j].key.user
    ensures m[j - 1].key.user == m[j].key.user
  {
    SortedUsers(m, i, j - 1);
    SortedUsers(m, j - 1, j);
    LessTransitive(m[i].key.user, m[j - 1].key.user, m[i].key.user);
  }

  /** A reader whose newest entry survives notices nothing. */
  lemma SurvivorSeen(es: set<Entry>, after: set<Entry>, user: Bytes, s: SequenceNumber, e: Entry)
    requires after <= es && Newest(es, user, s, e) && e in after
    ensures Sees(after, user, s) == Sees(es, user, s)
  {
    SeesNewest(es, user, s, e);
    assert Newest(after, user, s, e);
    SeesNewest(after, user, s, e);
  }

  lemma AfterDropShrinks(es: set<Entry>, v: Version, level: nat, m: seq<Entry>, snapshot: SequenceNumber)
    requires EntrySet(m) <= es
    ensures AfterDrop(es, v, level, m, snapshot) <= es
  {
    forall e | e in Kept(v, level, m, snapshot, |m|)
      ensures e in EntrySet(m)
    {
      KeptEntries(v, level, m, snapshot, |m|, e);
    }
  }

  /** A reader sees a change only if the drop uncovered a value. */
  lemma ChangeMeansUncovered(es: set<Entry>, v: Version, level: nat, m: seq<Entry>, snapshot: SequenceNumber,
                             user: Bytes, s: SequenceNumber) returns (t: Entry, x: Entry)
    requires Sorted(m) && EntrySet(m) <= es && UniqueKeys(es) && snapshot <= s
    requires Sees(AfterDrop(es, v, level, m, snapshot), user, s) != Sees(es, user, s)
    ensures Uncovers(es, v, level, m, snapshot, t, x) && t.key.user == user
  {
    hide Kept, BaseLevel, Sees;
    var after := AfterDrop(es, v, level, m, snapshot);
    AfterDropShrinks(es, v, level, m, snapshot);
    var r := NewestExists(es, user, s);
    if r.None? {
      SeesNothing(es, user, s);
      SeesNothing(after, user, s);
    }
    t := r.value;
    SeesNewest(es, user, s, t);
    if t in after {
      SurvivorSeen(es, after, user, s, t);
    }
    DroppedNewest(es, v, level, m, snapshot, user, s, t);
    var r' := NewestExists(after, user, s);
    if r'.None? {
      SeesNothing(after, user, s);
    }
    x := r'.value;
    SeesNewest(after, user, s, x);
  }

  /** A value that is uncovered is seen at the oldest live snapshot. */
  lemma UncoveredIsSeen(es: set<Entry>, v: Version, level: nat, m: seq<Entry>, snapshot: SequenceNumber, t: Entry,
                        x: Entry)
    requires Sorted(m) && EntrySet(m) <= es && UniqueKeys(es)
    requires Uncovers(es, v, level, m, snapshot, t, x)
    ensures Sees(es, t.key.user, snapshot) == None
    ensures Sees(AfterDrop(es, v, level, m, snapshot), t.key.user, snapshot) == Some(x.value)
  {
    hide Kept, BaseLevel, Sees;
    var after := AfterDrop(es, v, level, m, snapshot);
    AfterDropShrinks(es, v, level, m, snapshot);
    SeesNewest(es, t.key.user, snapshot, t);
    ObsoleteNewestDropped(es, v, level, m, snapshot, t);
    DroppedNewest(es, v, level, m, snapshot, t.key.user, snapshot, t);
    assert Newest(after, t.key.user, snapshot, x);
    SeesNewest(after, t.key.user, snapshot, x);
  }

  lemma ObsoleteNewestDropped(es: set<Entry>, v: Version, level: nat, m: seq<Entry>, snapshot: SequenceNumber, t: Entry)
    requires Sorted(m) && t in m && t.key.kind == TypeDeletion && t.key.seqno <= snapshot
             && BaseLevel(v, level, t.key.user)
    ensures t !in Kept(v, level, m, snapshot, |m|)
  {
    KeptEntries(v, level, m, snapshot, |m|, t);
  }

  /** The drop rule is invisible to every reader at the oldest live snapshot or later, for
      every user key, exactly when it uncovers no value outside the inputs. */
  lemma InvisibleIffNothingUncovered(es: set<Entry>, v: Version, level: nat, m: seq<Entry>, snapshot: SequenceNumber)
    requires Sorted(m) && EntrySet(m) <= es && UniqueKeys(es)
    ensures (forall user, s: SequenceNumber :: snapshot <= s ==>
              Sees(AfterDrop(es, v, level, m, snapshot), user, s) == Sees(es, user, s))
            <==> !(exists t, x :: Uncovers(es, v, level, m, snapshot, t, x))
  {
    hide Uncovers, Sees, AfterDrop;
    if t, x :| Uncovers(es, v, level, m, snapshot, t, x) {
      UncoveredIsSeen(es, v, level, m, snapshot, t, x);
    } else {
      forall user, s: SequenceNumber | snapshot <= s
        ensures Sees(AfterDrop(es, v, level, m, snapshot), user, s) == Sees(es, user, s)
      {
        if Sees(AfterDrop(es, v, level, m, snapshot), user, s) != Sees(es, user, s) {
          var t, x := ChangeMeansUncovered(es, v, level, m, snapshot, user, s);
        }
      }
    }
  }
}
