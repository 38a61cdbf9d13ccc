/** Versions (db/version_set.h, db/version_set.cc): seven levels of table files, and the
    lookup of one user key at one snapshot through them.
 */
module Versions {
  import opened Comparator
  import opened Dbformat
  import opened Cursors
  import opened Options

  const NUM_LEVELS: nat := 7

  /** FileMetaData together with the table it stands for. */
  datatype File = File(number: nat, size: nat, smallest: InternalKey, largest: InternalKey, entries: seq<Entry>)

  datatype Version = Version(levels: seq<seq<File>>)

  ghost predicate GoodFile(f: File) {
    && f.entries != []
    && Sorted(f.entries)
    && f.smallest == f.entries[0].key
    && f.largest == f.entries[|f.entries| - 1].key
  }

  ghost predicate GoodFiles(files: seq<File>) {
    forall f :: f in files ==> GoodFile(f)
  }

  /** The files of a level are in order and do not overlap, by internal key. */
  ghost predicate Disjoint(files: seq<File>) {
    forall i, j :: 0 <= i < j < |files| ==> Before(files[i].largest, files[j].smallest)
  }

  ghost predicate HasUser(f: File, user: Bytes) {
    LessEq(f.smallest.user, user) && LessEq(user, f.largest.user)
  }

  ghost function Contents(files: seq<File>): set<Entry> {
    set k, i | 0 <= k < |files| && 0 <= i < |files[k].entries| :: files[k].entries[i]
  }

  ghost function AllContents(v: Version): set<Entry> {
    set l, e | 0 <= l < |v.levels| && e in Contents(v.levels[l]) :: e
  }

  /** x was written later than y: the packed sequence number and type decide. */
  predicate Newer(x: Entry, y: Entry) {
    Tag(x.key) > Tag(y.key)
  }

  /** Every entry of xs is newer than every entry of ys for the same user key. */
  ghost predicate Above(xs: set<Entry>, ys: set<Entry>) {
    forall x, y :: x in xs && y in ys && x.key.user == y.key.user ==> Newer(x, y)
  }

  /** Level 0 may overlap, but a file with a larger number holds newer entries. */
  ghost predicate NumbersTellAge(files: seq<File>) {
    forall f, g :: f in files && g in files && f.number > g.number ==> Above(Contents([f]), Contents([g]))
  }

  ghost predicate DistinctNumbers(files: seq<File>) {
    forall f, g :: f in files && g in files && f.number == g.number ==> f == g
  }

  ghost predicate GoodVersion(v: Version) {
    && |v.levels| == NUM_LEVELS
    && (forall l :: 0 <= l < NUM_LEVELS ==> GoodFiles(v.levels[l]))
    && (forall l :: 0 <= l < NUM_LEVELS ==> DistinctNumbers(v.levels[l]))
    && (forall l :: 1 <= l < NUM_LEVELS ==> Disjoint(v.levels[l]))
    && NumbersTellAge(v.levels[0])
    && (forall l, m :: 0 <= l < m < NUM_LEVELS ==> Above(Contents(v.levels[l]), Contents(v.levels[m])))
  }

  /** e is what a reader of `user` at snapshot s sees in es. */
  ghost predicate Newest(es: set<Entry>, user: Bytes, s: SequenceNumber, e: Entry) {
    && e in es && e.key.user == user && e.key.seqno <= s
    && forall x :: x in es && x.key.user == user && x.key.seqno <= s ==> x == e || Newer(e, x)
  }

  ghost predicate NothingFor(es: set<Entry>, user: Bytes, s: SequenceNumber) {
    forall x :: x in es && x.key.user == user ==> x.key.seqno > s
  }

  /** The value or absence that a reader of `user` at snapshot s gets. */
  ghost function Sees(es: set<Entry>, user: Bytes, s: SequenceNumber): Option<Bytes> {
    if exists e :: Newest(es, user, s, e) && e.key.kind == TypeValue then
      var e :| Newest(es, user, s, e) && e.key.kind == TypeValue;
      Some(e.value)
    else
      None
  }

  lemma SeesNewest(es: set<Entry>, user: Bytes, s: SequenceNumber, e: Entry)
    requires Newest(es, user, s, e)
    ensures Sees(es, user, s) == if e.key.kind == TypeValue then Some(e.value) else None
  {
  }

  lemma SeesNothing(es: set<Entry>, user: Bytes, s: SequenceNumber)
    requires NothingFor(es, user, s)
    ensures Sees(es, user, s) == None
  {
  }

  /** The keys of a file lie between its bounds. */
  lemma FileBounds(f: File, i: nat)
    requires GoodFile(f) && i < |f.entries|
    ensures NotAfter(f.smallest, f.entries[i].key) && NotAfter(f.entries[i].key, f.largest)
    ensures HasUser(f, f.entries[i].key.user)
  {
    SortedUsers(f.entries, 0, i);
    SortedUsers(f.entries, i, |f.entries| - 1);
    InternalOrder(f.smallest, f.entries[i].key, f.largest);
  }

  /** The index of the first file whose largest key is at or past `key`. */
  function FileIndex(files: seq<File>, key: InternalKey): (r: nat)
    ensures r <= |files|
    ensures forall i :: 0 <= i < r ==> Before(files[i].largest, key)
    ensures r < |files| ==> !Before(files[r].largest, key)
  {
    if files == [] || !Before(files[0].largest, key) then 0 else 1 + FileIndex(files[1..], key)
  }

  lemma LargestIncrease(files: seq<File>, i: nat, j: nat)
    requires GoodFiles(files) && Disjoint(files)
    requires i <= j < |files|
    ensures NotAfter(files[i].largest, files[j].largest)
    ensures i < j ==> Before(files[i].largest, files[j].smallest)
    ensures LessEq(files[i].largest.user, files[j].largest.user)
  {
    FileBounds(files[j], 0);
    InternalOrder(files[i].largest, files[j].smallest, files[j].largest);
    LessIsStrict(files[i].largest.user, files[j].largest.user);
  }

  /** FindFile */
  method FindFile(files: seq<File>, key: InternalKey) returns (r: nat)
    requires GoodFiles(files) && Disjoint(files)
    ensures r == FileIndex(files, key)
  {
    hide Less, GoodFile;
    var left, right := 0, |files|;
    while left < right
      invariant 0 <= left <= right <= |files|
      invariant forall i :: 0 <= i < left ==> Before(files[i].largest, key)
      invariant right < |files| ==> !Before(files[right].largest, key)
    {
      var mid := (left + right) / 2;
      if Before(files[mid].largest, key) {
        forall i | 0 <= i <= mid
          ensures Before(files[i].largest, key)
        {
          LargestIncrease(files, i, mid);
          InternalOrder(files[i].largest, files[mid].largest, key);
        }
        left := mid + 1;
      } else {
        right := mid;
      }
    }
    r := right;
  }

  /** AfterFile: no user key is below every other, so it is never after a file. */
  predicate AfterFile(user: Option<Bytes>, f: File) {
    user.Some? && Less(f.largest.user, user.value)
  }

  /** BeforeFile: no user key is above every other, so it is never before a file. */
  predicate BeforeFile(user: Option<Bytes>, f: File) {
    user.Some? && Less(user.value, f.smallest.user)
  }

  /** The file's user keys meet the range; an absent end is unbounded. */
  predicate Overlaps(f: File, lo: Option<Bytes>, hi: Option<Bytes>) {
    !AfterFile(lo, f) && !BeforeFile(hi, f)
  }

  /** SomeFileOverlapsRange */
  method SomeFileOverlapsRange(disjoint: bool, files: seq<File>, lo: Option<Bytes>, hi: Option<Bytes>) returns (r: bool)
    requires disjoint ==> GoodFiles(files) && Disjoint(files)
    ensures r <==> exists f :: f in files && Overlaps(f, lo, hi)
  {
    if !disjoint {
      for i := 0 to |files|
        invariant forall j :: 0 <= j < i ==> !Overlaps(files[j], lo, hi)
      {
        if !(AfterFile(lo, files[i]) || BeforeFile(hi, files[i])) {
          assert files[i] in files && Overlaps(files[i], lo, hi);
          return true;
        }
      }
      return false;
    }
    var index := 0;
    if lo.Some? {
      index := FindFile(files, LookupKey(lo.value, MAX_SEQUENCE));
    }
    forall i | 0 <= i < |files|
      ensures i < index ==> AfterFile(lo, files[i])
      ensures i >= index ==> !AfterFile(lo, files[i])
      ensures i >= index && BeforeFile(hi, files[index]) ==> BeforeFile(hi, files[i])
    {
      if lo.Some? {
        EarliestKey(files[i].largest, lo.value);
      }
      if i >= index {
        LargestIncrease(files, index, i);
        FileBounds(files[index], 0);
        RangeOrder(hi, files[index], files[i], index == i);
        if lo.Some? {
          EarliestKey(files[index].largest, lo.value);
          LessTransitive(files[index].largest.user, files[i].largest.user, lo.value);
        }
      }
    }
    if index >= |files| {
      return false;
    }
    r := !BeforeFile(hi, files[index]);
    assert r ==> Overlaps(files[index], lo, hi) && files[index] in files;
  }

  lemma RangeOrder(hi: Option<Bytes>, f: File, g: File, same: bool)
    requires if same then f == g else Before(f.largest, g.smallest) && LessEq(f.smallest.user, f.largest.user)
    ensures BeforeFile(hi, f) ==> BeforeFile(hi, g)
  {
    var rank, unrank := OrderByRank();
  }

  /** No key for a user key comes before the one with the largest sequence number. */
  lemma EarliestKey(k: InternalKey, user: Bytes)
    ensures Before(k, LookupKey(user, MAX_SEQUENCE)) <==> Less(k.user, user)
  {
  }

  /** r is what a reader of `user` at s finds in es. */
  ghost predicate Answer(es: set<Entry>, user: Bytes, s: SequenceNumber, r: Option<Entry>) {
    match r
    case Some(e) => Newest(es, user, s, e)
    case None => NothingFor(es, user, s)
  }

  lemma ContentsOne(f: File)
    ensures forall x :: x in Contents([f]) <==> x in f.entries
  {
    forall x | x in f.entries
      ensures x in Contents([f])
    {
      var i :| 0 <= i < |f.entries| && f.entries[i] == x;
      assert [f][0].entries[i] == x;
    }
  }

  lemma ContentsIn(files: seq<File>, x: Entry)
    ensures x in Contents(files) <==> exists f :: f in files && x in f.entries
  {
    if f :| f in files && x in f.entries {
      var k :| 0 <= k < |files| && files[k] == f;
      var i :| 0 <= i < |files[k].entries| && files[k].entries[i] == x;
    }
  }

  /** Reading one table for `user` at s through a seek, as SaveValue records it
      (Version::Get's Match, TableCache::Get and SaveValue). */
  method Probe(f: File, user: Bytes, s: SequenceNumber) returns (r: Option<Entry>)
    requires GoodFile(f)
    ensures Answer(Contents([f]), user, s, r)
  {
    ContentsOne(f);
    var es, target := f.entries, LookupKey(user, s);
    var p := LowerBound(es, target);
    r := None;
    if p < |es| && es[p].key.user == user {
      r := Some(es[p]);
    }
    forall i | 0 <= i < |es| && es[i].key.user == user
      ensures es[i].key.seqno <= s ==> p <= i && es[p].key.user == user
      ensures p <= i ==> es[i].key.seqno <= s && (i == p || es[p].key.user != user || Newer(es[p], es[i]))
    {
      LessIsStrict(user, user);
      if p <= i {
        SortedUsers(es, p, i);
        LessTransitive(es[p].key.user, user, es[p].key.user);
      }
    }
  }

  predicate InRange(user: Bytes, f: File) {
    !Less(user, f.smallest.user) && !Less(f.largest.user, user)
  }

  /** Entries for a user key only occur in files whose range has it. */
  lemma OutOfRange(f: File, user: Bytes, s: SequenceNumber)
    requires GoodFile(f) && !InRange(user, f)
    ensures NothingFor(Contents([f]), user, s)
  {
    ContentsOne(f);
    forall x | x in f.entries
      ensures x.key.user != user
    {
      var i :| 0 <= i < |f.entries| && f.entries[i] == x;
      FileBounds(f, i);
    }
  }

  /** An entry of `user` readable at s sits in the file that FindFile picks for the lookup
      key, or that file ends with a newer readable entry of `user`. */
  lemma OneFile(files: seq<File>, user: Bytes, s: SequenceNumber, k: nat, j: nat)
    requires GoodFiles(files) && Disjoint(files)
    requires k < |files| && j < |files[k].entries|
    requires files[k].entries[j].key.user == user && files[k].entries[j].key.seqno <= s
    ensures var i := FileIndex(files, LookupKey(user, s));
            && i <= k && InRange(user, files[i])
            && (i < k ==> |files[i].entries| > 0 && var last := files[i].entries[|files[i].entries| - 1];
                  last.key.user == user && last.key.seqno <= s)
  {
    var i, x := FileIndex(files, LookupKey(user, s)), files[k].entries[j];
    FileBounds(files[k], j);
    assert !Before(x.key, LookupKey(user, s)) by { LessIsStrict(user, user); }
    InternalOrder(x.key, files[k].largest, LookupKey(user, s));
    assert i <= k;
    if i < k {
      LargestIncrease(files, i, k);
      InternalOrder(files[i].largest, files[k].smallest, x.key);
      LessIsStrict(files[i].largest.user, user);
      FileBounds(files[i], 0);
    }
  }

  /** Among the entries of one user key in an ordered level, those in earlier files are newer. */
  lemma EarlierFilesNewer(files: seq<File>, i: nat, a: nat, k: nat, b: nat)
    requires GoodFiles(files) && Disjoint(files)
    requires i < k < |files| && a < |files[i].entries| && b < |files[k].entries|
    ensures Before(files[i].entries[a].key, files[k].entries[b].key)
    ensures files[i].entries[a].key.user == files[k].entries[b].key.user ==>
              Newer(files[i].entries[a], files[k].entries[b])
  {
    FileBounds(files[i], a);
    FileBounds(files[k], b);
    InternalOrder(files[i].entries[a].key, files[i].largest, files[k].smallest);
    InternalOrder(files[i].entries[a].key, files[k].smallest, files[k].entries[b].key);
    LessIsStrict(files[i].entries[a].key.user, files[k].entries[b].key.user);
  }

  /** One probe answers for a whole ordered level. */
  lemma LevelAnswer(files: seq<File>, user: Bytes, s: SequenceNumber, r: Option<Entry>)
    requires GoodFiles(files) && Disjoint(files)
    requires var i := FileIndex(files, LookupKey(user, s));
             if i < |files| && !Less(user, files[i].smallest.user) then Answer(Contents([files[i]]), user, s, r)
               else r == None
    ensures Answer(Contents(files), user, s, r)
  {
    hide Less, GoodFile, Sorted, Before, Contents;
    forall x | x in Contents(files) && x.key.user == user && x.key.seqno <= s
      ensures r.Some? && (x == r.value || Newer(r.value, x))
    {
      var k, j := EntryPlace(files, x);
      NotNewerThanProbed(files, user, s, r, k, j);
    }
    if r.Some? {
      var i := FileIndex(files, LookupKey(user, s));
      ContentsOne(files[i]);
      ContentsIn(files, r.value);
    }
  }

  lemma EntryPlace(files: seq<File>, x: Entry) returns (k: nat, j: nat)
    requires x in Contents(files)
    ensures k < |files| && j < |files[k].entries| && files[k].entries[j] == x
  {
    k, j :| 0 <= k < |files| && 0 <= j < |files[k].entries| && files[k].entries[j] == x;
  }

  lemma NotNewerThanProbed(files: seq<File>, user: Bytes, s: SequenceNumber, r: Option<Entry>, k: nat, j: nat)
    requires GoodFiles(files) && Disjoint(files)
    requires k < |files| && j < |files[k].entries|
    requires files[k].entries[j].key.user == user && files[k].entries[j].key.seqno <= s
    requires var i := FileIndex(files, LookupKey(user, s));
             if i < |files| && !Less(user, files[i].smallest.user) then Answer(Contents([files[i]]), user, s, r)
               else r == None
    ensures r.Some? && (files[k].entries[j] == r.value || Newer(r.value, files[k].entries[j]))
  {
    hide Less, Sorted, Before, Contents;
    var i := FileIndex(files, LookupKey(user, s));
    OneFile(files, user, s, k, j);
    ContentsOne(files[i]);
    if i < k {
      assert files[i].entries[|files[i].entries| - 1] in files[i].entries;
      var _, a := EntryPlace([files[i]], r.value);
      EarlierFilesNewer(files, i, a, k, j);
    }
  }

  predicate NewestFirst(files: seq<File>) {
    forall i, j :: 0 <= i < j < |files| ==> files[i].number >= files[j].number
  }

  lemma InsertInOrder(r: seq<File>, k: nat, f: File)
    requires NewestFirst(r) && k <= |r|
    requires k > 0 ==> r[k - 1].number >= f.number
    requires k < |r| ==> r[k].number <= f.number
    ensures NewestFirst(r[..k] + [f] + r[k..])
    ensures forall g :: g in r[..k] + [f] + r[k..] <==> g in r || g == f
  {
    var t := r[..k] + [f] + r[k..];
    forall i, j | 0 <= i < j < |t|
      ensures t[i].number >= t[j].number
    {
      assert t[i] == if i < k then r[i] else if i == k then f else r[i - 1];
      assert t[j] == if j < k then r[j] else if j == k then f else r[j - 1];
    }
    InsertMembers(r, k, f);
  }

  lemma InsertMembers<T>(r: seq<T>, k: nat, f: T)
    requires k <= |r|
    ensures forall g :: g in r[..k] + [f] + r[k..] <==> g in r || g == f
  {
    assert r == r[..k] + r[k..];
  }

  /** std::sort with NewestFirst */
  method SortNewestFirst(files: seq<File>) returns (r: seq<File>)
    ensures NewestFirst(r)
    ensures |r| == |files| && forall f :: f in r <==> f in files
  {
    r := [];
    for i := 0 to |files|
      invariant NewestFirst(r)
      invariant |r| == i && forall f :: f in r <==> f in files[..i]
    {
      var k := 0;
      while k < |r| && r[k].number > files[i].number
        invariant 0 <= k <= |r|
        invariant k > 0 ==> r[k - 1].number > files[i].number
      {
        k := k + 1;
      }
      InsertInOrder(r, k, files[i]);
      r := r[..k] + [files[i]] + r[k..];
      assert files[..i + 1] == files[..i] + [files[i]];
    }
    assert files[..|files|] == files;
  }

  /** ForEachOverlapping on level 0: the files whose range has `user`, newest first. */
  method OverlappingNewestFirst(files: seq<File>, user: Bytes) returns (tmp: seq<File>)
    ensures NewestFirst(tmp)
    ensures forall f :: f in tmp <==> f in files && InRange(user, f)
  {
    tmp := [];
    for i := 0 to |files|
      invariant forall f :: f in tmp <==> f in files[..i] && InRange(user, f)
    {
      if !Less(user, files[i].smallest.user) && !Less(files[i].largest.user, user) {
        tmp := tmp + [files[i]];
      }
      assert files[..i + 1] == files[..i] + [files[i]];
    }
    assert files[..|files|] == files;
    tmp := SortNewestFirst(tmp);
  }

  /** The newest entry of the newest overlapping file is the newest of level 0. */
  lemma Level0Answer(files: seq<File>, tmp: seq<File>, user: Bytes, s: SequenceNumber, k: nat, r: Option<Entry>)
    requires GoodFiles(files) && DistinctNumbers(files) && NumbersTellAge(files)
    requires NewestFirst(tmp)
    requires forall f :: f in tmp <==> f in files && InRange(user, f)
    requires k <= |tmp| && forall j :: 0 <= j < k ==> NothingFor(Contents([tmp[j]]), user, s)
    requires if k < |tmp| then r.Some? && Answer(Contents([tmp[k]]), user, s, r) else r == None
    ensures Answer(Contents(files), user, s, r)
  {
    hide Less, GoodFile, Contents;
    forall x | x in Contents(files) && x.key.user == user && x.key.seqno <= s
      ensures r.Some? && (x == r.value || Newer(r.value, x))
    {
      var m, j := EntryPlace(files, x);
      ContentsOne(files[m]);
      assert files[m] in files;
      if !InRange(user, files[m]) {
        OutOfRange(files[m], user, s);
        assert false;
      }
      var a :| 0 <= a < |tmp| && tmp[a] == files[m];
      assert a >= k;
      if tmp[a] != tmp[k] {
        assert tmp[k].number != tmp[a].number;
        assert Above(Contents([tmp[k]]), Contents([tmp[a]]));
      }
    }
    if r.Some? {
      ContentsOne(tmp[k]);
      assert tmp[k] in files;
      ContentsIn(files, r.value);
    }
  }

  lemma Combine(v: Version, user: Bytes, s: SequenceNumber, l: nat, r: Option<Entry>)
    requires GoodVersion(v) && l <= NUM_LEVELS
    requires forall m :: 0 <= m < l ==> NothingFor(Contents(v.levels[m]), user, s)
    requires if l < NUM_LEVELS then r.Some? && Answer(Contents(v.levels[l]), user, s, r) else r == None
    ensures Answer(AllContents(v), user, s, r)
  {
    hide Less, Contents, GoodFiles, Disjoint, NumbersTellAge, DistinctNumbers;
    forall x | x in AllContents(v) && x.key.user == user && x.key.seqno <= s
      ensures r.Some? && (x == r.value || Newer(r.value, x))
    {
      var m :| 0 <= m < NUM_LEVELS && x in Contents(v.levels[m]);
      assert m >= l;
    }
  }

  /** Version::Get: level 0 from the newest file to the oldest, then one file of every
      deeper level, stopping at the first hit, reads what the whole version holds. */
  method Get(v: Version, user: Bytes, s: SequenceNumber) returns (r: Option<Bytes>)
    requires GoodVersion(v)
    ensures r == Sees(AllContents(v), user, s)
  {
    hide Less, Contents, Disjoint, NumbersTellAge, GoodFile, AllContents;
    var found: Option<Entry> := None;
    var tmp := OverlappingNewestFirst(v.levels[0], user);
    var i := 0;
    while i < |tmp| && found.None?
      invariant 0 <= i <= |tmp|
      invariant forall j :: 0 <= j < (if found.None? then i else i - 1) ==> NothingFor(Contents([tmp[j]]), user, s)
      invariant found.Some? ==> i > 0 && Answer(Contents([tmp[i - 1]]), user, s, found)
    {
      found := Probe(tmp[i], user, s);
      i := i + 1;
    }
    Level0Answer(v.levels[0], tmp, user, s, if found.None? then i else i - 1, found);
    var l := 1;
    while l < NUM_LEVELS && found.None?
      invariant 1 <= l <= NUM_LEVELS
      invariant forall m :: 0 <= m < (if found.None? then l else l - 1) ==> NothingFor(Contents(v.levels[m]), user, s)
      invariant found.Some? ==> Answer(Contents(v.levels[l - 1]), user, s, found)
    {
      var files := v.levels[l];
      if |files| != 0 {
        var index := FindFile(files, LookupKey(user, s));
        if index < |files| && !Less(user, files[index].smallest.user) {
          found := Probe(files[index], user, s);
        }
      }
      LevelAnswer(files, user, s, found);
      l := l + 1;
    }
    Combine(v, user, s, if found.None? then l else l - 1, found);
    match found {
      case None =>
        SeesNothing(AllContents(v), user, s);
        r := None;
      case Some(e) =>
        SeesNewest(AllContents(v), user, s, e);
        r := if e.key.kind == TypeValue then Some(e.value) else None;
    }
  }
}
