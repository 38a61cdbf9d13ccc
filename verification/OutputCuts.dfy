/** Where a compaction cuts its output (db/db_impl.cc:887-1046, db/version_set.cc:1531-1553):
    a file ends as soon as it is large enough, and before it spans too much of level + 2.
 */
module OutputCuts {
  import opened Comparator
  import opened Dbformat
  import opened Versions

  function SizeBetween(files: seq<File>, i: nat, j: nat): nat
    requires i <= j <= |files|
  {
    if i == j then 0 else SizeBetween(files, i, j - 1) + files[j - 1].size
  }

  lemma {:induction false} SizeSplits(files: seq<File>, i: nat, j: nat, k: nat)
    requires i <= j <= k <= |files|
    ensures SizeBetween(files, i, k) == SizeBetween(files, i, j) + SizeBetween(files, j, k)
    ensures j < |files| ==> SizeBetween(files, j, j + 1) == files[j].size
  {
    if j < k {
      SizeSplits(files, i, j, k - 1);
    }
  }

  /** The size of the grandparent files that end between the first and the last entry. */
  function Spanned(grandparents: seq<File>, es: seq<Entry>): nat
    requires es != []
  {
    var a, b := FileIndex(grandparents, es[0].key), FileIndex(grandparents, es[|es| - 1].key);
    if a <= b then SizeBetween(grandparents, a, b) else 0
  }

  /** The file was ended at the first entry that made it large enough, if not before, and
      does not span more grandparents than is allowed. */
  ghost predicate WellCut(grandparents: seq<File>, sizeOf: seq<Entry> -> nat, maxFileSize: nat, es: seq<Entry>) {
    && es != []
    && (forall k :: 0 < k < |es| ==> sizeOf(es[..k]) < maxFileSize)
    && Spanned(grandparents, es) <= 10 * maxFileSize
  }

  /** The output under construction, with the grandparent cursor at gi. */
  ghost predicate Open(grandparents: seq<File>, sizeOf: seq<Entry> -> nat, maxFileSize: nat, built: seq<Entry>,
                       gi: nat, overlapped: nat)
  {
    built != [] ==>
      && WellCut(grandparents, sizeOf, maxFileSize, built) && sizeOf(built) < maxFileSize
      && var a := FileIndex(grandparents, built[0].key);
         a <= gi <= |grandparents| && SizeBetween(grandparents, a, gi) <= overlapped
  }

  lemma NothingOpen(grandparents: seq<File>, sizeOf: seq<Entry> -> nat, maxFileSize: nat, gi: nat, overlapped: nat)
    ensures Open(grandparents, sizeOf, maxFileSize, [], gi, overlapped)
  {
  }

  /** The cursor moves on and the sizes it passes are added up. */
  lemma StaysOpen(grandparents: seq<File>, sizeOf: seq<Entry> -> nat, maxFileSize: nat, built: seq<Entry>,
                  gi: nat, overlapped: nat, gi': nat)
    requires Open(grandparents, sizeOf, maxFileSize, built, gi, overlapped) && gi <= gi' <= |grandparents|
    ensures Open(grandparents, sizeOf, maxFileSize, built, gi', overlapped + SizeBetween(grandparents, gi, gi'))
  {
    if built != [] {
      SizeSplits(grandparents, FileIndex(grandparents, built[0].key), gi, gi');
    }
  }

  lemma Extends(grandparents: seq<File>, sizeOf: seq<Entry> -> nat, maxFileSize: nat, built: seq<Entry>,
                gi: nat, overlapped: nat, e: Entry)
    requires Open(grandparents, sizeOf, maxFileSize, built, gi, overlapped)
    requires gi == FileIndex(grandparents, e.key) && overlapped <= 10 * maxFileSize
    ensures WellCut(grandparents, sizeOf, maxFileSize, built + [e])
    ensures sizeOf(built + [e]) < maxFileSize ==> Open(grandparents, sizeOf, maxFileSize, built + [e], gi, overlapped)
  {
    var es := built + [e];
    forall k | 0 < k < |es|
      ensures sizeOf(es[..k]) < maxFileSize
    {
      assert es[..k] == built[..k];
      assert built[..|built|] == built;
    }
  }

  // ---- no file is ended too early ----

  /** How many outputs were ended before they were large enough. */
  function Undersized(sizeOf: seq<Entry> -> nat, maxFileSize: nat, outputs: seq<File>): nat {
    if outputs == [] then 0
    else
      Undersized(sizeOf, maxFileSize, outputs[..|outputs| - 1])
      + if sizeOf(outputs[|outputs| - 1].entries) < maxFileSize then 1 else 0
  }

  function Cost(n: nat, maxFileSize: nat): nat {
    n * (10 * maxFileSize + 1)
  }

  /** Each of them is paid for by grandparents that have been passed since the one before, of more
      than ten times the size of a file. */
  ghost predicate Paid(grandparents: seq<File>, sizeOf: seq<Entry> -> nat, maxFileSize: nat, outputs: seq<File>,
                       gi: nat, overlapped: nat)
  {
    && gi <= |grandparents|
    && Cost(Undersized(sizeOf, maxFileSize, outputs), maxFileSize) + overlapped <= SizeBetween(grandparents, 0, gi)
  }

  lemma NothingPaid(grandparents: seq<File>, sizeOf: seq<Entry> -> nat, maxFileSize: nat)
    ensures Paid(grandparents, sizeOf, maxFileSize, [], 0, 0)
  {
  }

  lemma OneMoreOutput(sizeOf: seq<Entry> -> nat, maxFileSize: nat, outputs: seq<File>, o: File)
    ensures var small := sizeOf(o.entries) < maxFileSize;
            Undersized(sizeOf, maxFileSize, outputs + [o])
            == Undersized(sizeOf, maxFileSize, outputs) + if small then 1 else 0
  {
    assert (outputs + [o])[..|outputs|] == outputs;
  }

  lemma CostOfOneMore(n: nat, maxFileSize: nat)
    ensures Cost(n + 1, maxFileSize) == Cost(n, maxFileSize) + 10 * maxFileSize + 1
  {
  }

  /** The cursor moves on. */
  lemma PaidMoves(grandparents: seq<File>, sizeOf: seq<Entry> -> nat, maxFileSize: nat, outputs: seq<File>,
                  gi: nat, overlapped: nat, gi': nat, passed: nat)
    requires Paid(grandparents, sizeOf, maxFileSize, outputs, gi, overlapped) && gi <= gi' <= |grandparents|
    requires passed == 0 || passed == SizeBetween(grandparents, gi, gi')
    ensures Paid(grandparents, sizeOf, maxFileSize, outputs, gi', overlapped + passed)
    ensures Paid(grandparents, sizeOf, maxFileSize, outputs, gi', 0)
  {
    hide Cost;
    SizeSplits(grandparents, 0, gi, gi');
  }

  /** If it has passed too much, that pays for an output of any size. */
  lemma PaysForOne(grandparents: seq<File>, sizeOf: seq<Entry> -> nat, maxFileSize: nat, outputs: seq<File>,
                   gi: nat, overlapped: nat, o: File)
    requires Paid(grandparents, sizeOf, maxFileSize, outputs, gi, overlapped) && overlapped > 10 * maxFileSize
    ensures Paid(grandparents, sizeOf, maxFileSize, outputs + [o], gi, 0)
  {
    hide Cost;
    OneMoreOutput(sizeOf, maxFileSize, outputs, o);
    CostOfOneMore(Undersized(sizeOf, maxFileSize, outputs), maxFileSize);
  }

  lemma LargePaysItself(grandparents: seq<File>, sizeOf: seq<Entry> -> nat, maxFileSize: nat, outputs: seq<File>,
                        gi: nat, overlapped: nat, o: File)
    requires Paid(grandparents, sizeOf, maxFileSize, outputs, gi, overlapped) && sizeOf(o.entries) >= maxFileSize
    ensures Paid(grandparents, sizeOf, maxFileSize, outputs + [o], gi, overlapped)
  {
    OneMoreOutput(sizeOf, maxFileSize, outputs, o);
  }

  /** Of all the outputs but the last. */
  ghost predicate FewUndersized(grandparents: seq<File>, sizeOf: seq<Entry> -> nat, maxFileSize: nat,
                                outputs: seq<File>)
  {
    outputs != [] ==>
      Undersized(sizeOf, maxFileSize, outputs[..|outputs| - 1]) * (10 * maxFileSize + 1)
      <= SizeBetween(grandparents, 0, |grandparents|)
  }

  lemma PaidInAll(grandparents: seq<File>, sizeOf: seq<Entry> -> nat, maxFileSize: nat, outputs: seq<File>,
                  gi: nat, overlapped: nat)
    requires Paid(grandparents, sizeOf, maxFileSize, outputs, gi, overlapped)
    ensures FewUndersized(grandparents, sizeOf, maxFileSize, outputs)
    ensures forall o :: FewUndersized(grandparents, sizeOf, maxFileSize, outputs + [o])
  {
    SizeSplits(grandparents, 0, gi, |grandparents|);
    if outputs != [] {
      var n := Undersized(sizeOf, maxFileSize, outputs[..|outputs| - 1]);
      if Undersized(sizeOf, maxFileSize, outputs) == n + 1 {
        CostOfOneMore(n, maxFileSize);
      }
    }
    assert forall o :: (outputs + [o])[..|outputs|] == outputs;
  }

  /** The cursor stands at the first file that does not end before the key. */
  lemma CursorIs(grandparents: seq<File>, gi: nat, key0: InternalKey, gi': nat, key: InternalKey)
    requires gi == 0 || (gi == FileIndex(grandparents, key0) && Before(key0, key))
    requires gi <= gi' <= |grandparents| && forall j :: gi <= j < gi' ==> Before(grandparents[j].largest, key)
    requires gi' < |grandparents| ==> !Before(grandparents[gi'].largest, key)
    ensures gi' == FileIndex(grandparents, key)
  {
    hide Before;
    OrderLaws();
    forall j | 0 <= j < gi'
      ensures Before(grandparents[j].largest, key)
    {
      assert gi > 0 ==> Before(key0, key);
    }
  }
}
